# win-icon-extractor: loadBitmap and the alpha decision

win-icon-extractor turns the icon Windows associates with a file into a
base64 PNG. This project models the two parts of `index.js` that carry its
logic:

- **`loadBitmap`** (`bmp_file.dfy`, with the structure in `bitmap_info.dfy`
  and the byte encodings in `bytes.dfy`). It clears a ref-struct
  `BITMAPINFO`, which is a 40-byte `BITMAPINFOHEADER` followed by room for a
  16-entry colour table (104 bytes). It sets `biSize` to 40, asks Windows
  for the header, and cuts the buffer to `biSize + colors` bytes. It then
  resets `biCompression`, asks Windows for the pixels, and prepends the
  14-byte BMP file header ("BM", size, reserved, pixel offset). The result
  is a standalone `.bmp` image plus its bit depth. The three Windows calls
  (`GetDC`, and `GetDIBits` twice) are not executed. Their answers are the
  input `Os`: whether a screen DC was obtained, the header the first query
  fills in, and the colour table and pixels the second query writes. Each
  `throw` of the source is a `LoadError`.
- **The `has_alpha` scan and the mask decision** (`alpha.dfy`). For depths
  above 24, the decoded colour bitmap is scanned column by column. Each
  column is scanned from the top until a pixel with a non-zero fourth byte
  is found in it; the `break` then moves on to the next column. If some
  pixel was found, the colour bitmap is used as it is. Otherwise, and
  always for depths up to 24, it is masked with the inverted mask bitmap.

The structure object is a class, `BitmapInfo.BitmapInfoStruct`. Its byte
buffer is an `array` that the methods fill, write field by field and
replace with a slice, as the source does. Each step of `loadBitmap` is a
method proved against specification functions: `InfoBlock`, `FileHeader`
and `FileBytes`. The lemmas in `BmpFileFacts` state what those functions
promise about the file.

The source's `ulong` and `long` are taken to be 4 bytes, as on Windows,
where this library runs. Negative `long` fields are stored in two's
complement.

The comment at `index.js:66-68` says that the colour table is
preallocated and that only its unused part is sliced off once the real
size is known, so the whole table was meant to be kept. In the code, a
slice cannot grow the 104-byte buffer, so tables larger than 16 entries
are cut short. The model follows the code (see Findings).

The code has no check that the colour and mask bitmaps have the same
size. It calls `DestroyIcon` only after both `loadBitmap` calls have
succeeded (`index.js:155-159`), so a throw in either call leaves the icon
allocated. Both lie outside the modelled core.

## Model

| member | source | states |
|---|---|---|
| Bytes.LE32 | index.js:124-128 | the four bytes `writeUInt32LE(v)` stores read back, little-endian, as `v` |
| Bytes.LE32OfU32At | index.js:41-53 | re-encoding a 32-bit field read from memory gives back its four bytes (the other half of the round trip) |
| Bytes.I32Bits | index.js:43-44 | the two's-complement bits of a signed `long` fit 32 bits and decode to the same signed value |
| BitmapInfo.EncodeHeader | index.js:41-53 | the header occupies 40 bytes, the size of BITMAPINFOHEADER |
| BitmapInfo.DecodeHeader | index.js:41-53 | the fields read from 40 bytes fit their C types: `ulong` and `ushort` unsigned, `long` signed 32-bit |
| BitmapInfo.HeaderLayout | index.js:41-53 | each field sits little-endian at its offset, in declaration order and with no padding (0, 4, 8, 12, 14, 16, 20, 24, 28, 32, 36) |
| BitmapInfo.DecodeEncodeHeader | index.js:41-53 | reading the fields back from a stored BITMAPINFOHEADER gives exactly the header that was stored |
| BitmapInfo.EncodeDecodeHeader | index.js:41-53 | every 40-byte block is the stored form of the header read from it, so the layout loses no byte |
| BitmapInfo.BitmapInfoStruct.constructor | index.js:62-71 | a new structure has a fresh buffer of 40 + 16 * 4 = 104 bytes |
| BitmapInfo.BitmapInfoStruct.Fill | index.js:89 | after `fill(v)` every byte of the buffer is `v` |
| BitmapInfo.BitmapInfoStruct.Store | index.js:100-113 | writing bytes at an offset replaces exactly those bytes and leaves the rest of the buffer unchanged; the two queries write this way |
| BitmapInfo.BitmapInfoStruct.SetU32 | index.js:92 | assigning a 32-bit field replaces its four bytes with the little-endian value and leaves every other byte unchanged |
| BitmapInfo.BitmapInfoStruct.Slice | index.js:106 | the buffer becomes a fresh copy of its first `min(end, length)` bytes, so it never grows |
| BmpFile.ColorTableBytes | index.js:105 | the colour table is a whole number of 4-byte entries, and it is empty exactly when the depth is 24 or more |
| BmpFile.ColorTableFits | index.js:66-71 | the table fits the 16 preallocated entries exactly when the depth is at most 4 or at least 24 |
| BmpFile.InfoBlock | index.js:104-109 | the structure that goes into the file is `TrimmedLength` bytes long and starts with the header whose `biCompression` is 0 |
| BmpFile.PixelOffset | index.js:128 | the offset field is at least 54, grows by whole 4-byte table entries, and is exactly 54 for depths of 24 and more |
| BmpFile.FileSize | index.js:124 | the size field minus the offset field is the `biSizeImage` pixel bytes |
| BmpFile.FileBytes | index.js:130-132 | the returned file is the 14-byte file header, the trimmed structure and `biSizeImage` pixel bytes, in that order |
| BmpFile.WriteU32LE | index.js:124-128 | `writeUInt32LE` replaces the four bytes at the offset with the little-endian value and leaves every other byte unchanged |
| BmpFile.FileHeader | index.js:117-128 | the 14-byte header starts with "BM" and holds the given size, a zero reserved field and the given offset |
| BmpFile.NewInfoStruct | index.js:86-92 | the fresh structure holds 40 in `biSize` and zero in every other byte |
| BmpFile.TrimColorTable | index.js:104-106 | `colors` is the table size for the stored depth, and the buffer is cut to `biSize + colors` bytes or left whole if shorter |
| BmpFile.ResetCompression | index.js:108-109 | the stored header becomes the same header with `biCompression` 0, and the colour-table bytes are untouched |
| BmpFile.BuildFileHeader | index.js:117-128 | the header buffer built in place equals `FileHeader(size, offset)` |
| BmpFile.Receive | index.js:112-113 | a zero-filled buffer the OS writes into holds the OS's bytes as far as it reaches and zeros after them |
| BmpFile.DibError | index.js:95-115 | when a step fails, the error names the first step that failed: no screen DC, the header query, a structure too short for the header, or the data query |
| BmpFile.ReadDib | index.js:85-115 | each failing step gives its own error, in program order (`DibError`); on success the trimmed structure is the uncompressed header plus the table cut to the trimmed length, and the data is the pixels in a `biSizeImage`-byte buffer |
| BmpFile.LoadBitmap | index.js:85-135 | a failing query gives the same error `ReadDib` reports (`DibError`), and a size of 2^32 or more gives `FileSizeOutOfRange`; the call succeeds exactly when every query succeeds and the size fits 32 bits; the file is header, trimmed structure and pixels, and the depth is the header's `biBitCount` |
| BmpFileFacts.InfoBlockIsStructPrefix | index.js:104-106 | the structure written into the file is the first `min(biSize + colors, 104)` bytes of the preallocated structure |
| BmpFileFacts.CompressionReset | index.js:108-109 | the header in the file reads back with `biCompression` 0 and every other field as the header query returned it |
| BmpFileFacts.FileLayout | index.js:117-132 | the file starts with "BM"; its size field is `data + 54 + colors` and its offset field `54 + colors`; the structure follows the file header, and the pixels end the file |
| BmpFileFacts.FieldsMatchFile | index.js:124-132 | the size field equals the file's length, and the offset field the real start of the pixels, exactly when the trimmed structure is 40 bytes plus the whole colour table |
| BmpFileFacts.StandardHeaderConsistency | index.js:104-132 | with the 40-byte header, the size field is the file's real length exactly when the depth is at most 4 or at least 24 |
| BmpFileFacts.MidDepthFieldsOverstate | index.js:124-128 | for depths 5 to 23 the size field is larger than the file and the offset field points past the start of the pixels |
| BmpFileFacts.EightBitIcon | index.js:124-128 | a 32x32 8-bit icon gives a 1142-byte file whose size field says 2102 and whose offset field says 1078 |
| BmpFileFacts.Assemble | index.js:117-132 | a file built from its real parts has a size field equal to its length, and an offset field equal to where the pixels start |
| BmpFileFacts.FullTableFileFields | index.js:124-128 | with the whole colour table kept, the code's own size and offset formulas are right for every depth |
| BmpFileFacts.FittingTableAgrees | index.js:104-132 | where the table fits the preallocated entries, the file loadBitmap builds is the file with the whole table |
| Alpha.PixelIndex | index.js:179 | the index of a pixel is a multiple of 4, and is not negative for a pixel inside the image |
| Alpha.PixelInBuffer | index.js:179-180 | the alpha byte of a pixel inside the image lies inside a `width * height * 4`-byte buffer |
| Alpha.HasAlpha | index.js:171-186 | the flag is set exactly when the depth is above 24 and some pixel of the image has a non-zero alpha byte |
| Alpha.ScanStaysInBuffer | index.js:177-180 | for a buffer of `width * height` four-byte pixels, for each pixel inside the image the tested byte lies inside the buffer, and the JavaScript test equals "the stored fourth byte is non-zero"; so some pixel passes the test exactly when some pixel's stored fourth byte is non-zero |
| Alpha.Resolve | index.js:171-209 | the colour bitmap is used as it is exactly when the scan finds alpha; otherwise it is masked with the mask bitmap |

Some helpers have no row because each is defined only by its body:
`BmpFile.TrimmedLength` (the slice length at `index.js:106`),
`BmpFile.Uncompressed` (`index.js:109`), `Bytes.U16At` and `Bytes.U32At`,
`BitmapInfo.BitmapInfoStruct.GetU16` and `GetU32` (the field reads at
`index.js:105-106`, `112` and `133`), and `Alpha.ByteNonZero` (the test at
`index.js:180`, where a read past the end gives `undefined`, which is not
equal to 0). The rows of `TrimColorTable`,
`ResetCompression`, `LE32` and the header round trips state what they
mean.

## Left out

- The Windows calls `ExtractAssociatedIconW`, `GetIconInfo`, `GetDC`, `GetDIBits` and `DestroyIcon`, and the ffi bindings, are not executed. Their answers are inputs (`BmpFile.Os`). Of the exported function, only the scan and the decision between the two compositions are modelled.
- The `lpctstr` UCS-2 marshalling (lines 12-31) and `path.resolve`: string handling inside the ffi layer.
- bmp-js decoding and encoding, and jimp's `read`, `invert`, `mask` and `getBase64`: library code that is not part of this model. `Alpha.Composition` records which images go into the PNG, not the pixels that come out.
- The Promise and callback plumbing, the icon handle released only on success, the screen DC never released, and `test.js`.
- BmpFile.ReadDib: the pixel query is taken to leave the header fields as the header query set them.
- BmpFile.ReadDib: Windows reports depths 1, 4, 8, 16, 24 and 32. With `biCompression` reset to 0 (BI_RGB), a 16-bit query writes no colour table, and neither do 24- and 32-bit ones. The model accepts any table at any depth; at these depths Windows supplies none. A non-empty input table with a 16-bit header would fill bytes 40-103 of the trimmed structure, which the real call leaves zero. At depth 8, however, the data query writes the whole 256-entry table (1024 bytes) from offset 40 of the 104-byte allocation, running 960 bytes past its end. The model keeps only the table bytes that fall inside the trimmed buffer and does not model the memory past its end.
- BmpFile.ReadDib: the screen-DC check at `index.js:96` is modelled as its author intended: no DC gives `ScreenDcUnavailable`. As written, it compares the dereferenced `void` return of `GetDC` with 0. If the ffi layer turns that into `null`, the comparison is never true, and a missing DC surfaces as the header-query error instead. The ffi and ref libraries are not part of this model.
- BmpFile.ReadDib: a trimmed buffer shorter than 40 bytes (`biSize + colors < 40`) is taken to make the header view unusable. This is modelled as the error `HeaderTooShort`.
- BmpFile.LoadBitmap: a failing `Buffer.alloc` for a very large `biSizeImage` is not modelled. A size field of 2^32 or more is the error `FileSizeOutOfRange`, because `writeUInt32LE` rejects it.
- BitmapInfo.BitmapInfoStruct.Slice: Node's `slice` shares memory with the old buffer, but the model copies it. The old buffer is never used again, so no aliasing is lost.
- Alpha.HasAlpha: jimp's `getPixelIndex` is taken to be `(y * width + x) * 4`, with no clamping of the coordinates.
- The `long`/`ulong` width is fixed at 4 bytes (the Windows layout). Other platforms are out of scope for a library that calls shell32.

## Findings

| source | as written | input that shows it | evidently intended | confidence | as-written member | corrected member |
|---|---|---|---|---|---|---|
| index.js:104-128 | the colour table is cut to the 16 preallocated entries, but the size field is `data + 54 + colors` and the offset field `54 + colors` with the full `colors` | a 32x32 icon of depth 8 (`biSize` 40, `biSizeImage` 1024): the file is 1142 bytes and its pixels start at 118, yet the size field says 2102 and the offset 1078 | keep the whole colour table in the file, so that both fields describe the bytes actually written | high, not executed | BmpFileFacts.MidDepthFieldsOverstate | BmpFileFacts.FullTableFileFields |
