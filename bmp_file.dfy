/** `loadBitmap` of index.js: query a bitmap's header, trim the preallocated
    colour table, query the pixel data, and prepend a 14-byte BMP file header
    (the BITMAPFILEHEADER layout) so that the bytes form a standalone .bmp file.
    The three Windows calls are not run; their results are the input `Os`. */
module BmpFile {
  import opened Bytes
  import opened BitmapInfo

  /** Length of the BMP file header: signature, size, reserved, offset. */
  const FILE_HEADER_SIZE: nat := 14
  /** The literal 54 of index.js: the file header plus a 40-byte info header. */
  const HEADERS_SIZE: nat := 54
  /** Depths from this one up have no colour table. */
  const TRUE_COLOR_DEPTH: nat := 24
  /** Bytes of colour table the structure has room for (16 entries). */
  const TABLE_CAPACITY: nat := PALETTE_ENTRIES * ENTRY_SIZE

  /** Result of `GetDIBits` called for the header only. */
  datatype InfoQuery = InfoFailed | InfoFilled(header: BitmapInfoHeader)

  /** Result of `GetDIBits` called for the pixels: the colour table it writes
      after the header and the pixel bytes it writes into `data`. */
  datatype BitsQuery = BitsFailed | BitsFilled(table: seq<byte>, pixels: seq<byte>)

  /** What the operating system answers to the calls loadBitmap makes. */
  datatype Os = Os(screenDc: bool, info: InfoQuery, bits: BitsQuery)
  {
    /** The header the OS fills in has fields that fit their C types. */
    predicate Valid() { info.InfoFilled? ==> info.header.Valid() }
  }

  /** The errors loadBitmap throws. */
  datatype LoadError =
    | ScreenDcUnavailable   // "Failed to get screen DC."
    | InfoQueryError        // "Failed to load BITMAP (ident) info."
    | HeaderTooShort        // the trimmed buffer cannot back the 40-byte bmiHeader view
    | DataQueryError        // "Failed to load BITMAP data."
    | FileSizeOutOfRange    // writeUInt32LE rejects a size of 2^32 or more

  /** The object loadBitmap returns: the standalone file and the bit depth. */
  datatype LoadedBitmap = LoadedBitmap(data: seq<byte>, depth: nat)

  datatype LoadResult = Loaded(bitmap: LoadedBitmap) | Failed(error: LoadError)

  function Pow2(n: nat): (r: nat)
    ensures r >= 1
  {
    if n == 0 then 1 else 2 * Pow2(n - 1)
  }

  /** `biBitCount < 24 ? ((1 << biBitCount) * 4) : 0`: four bytes for every
      colour a pixel of that depth can index, and none for true colour.
      Below 24 the shift cannot reach JavaScript's 32-bit sign bit. */
  function ColorTableBytes(bitCount: nat): (r: nat)
    ensures r % ENTRY_SIZE == 0
    ensures r == 0 <==> bitCount >= TRUE_COLOR_DEPTH
  {
    if bitCount < TRUE_COLOR_DEPTH then Pow2(bitCount) * ENTRY_SIZE else 0
  }

  lemma {:induction false} Pow2Grows(m: nat, n: nat)
    requires m <= n
    ensures Pow2(m) <= Pow2(n)
  {
    if m < n {
      Pow2Grows(m, n - 1);
    }
  }

  /** The colour table fits the 16 preallocated entries exactly when the
      depth is at most 4 or is a true-colour depth. */
  lemma {:induction false} ColorTableFits(bitCount: nat)
    ensures ColorTableBytes(bitCount) <= TABLE_CAPACITY <==> bitCount <= 4 || bitCount >= TRUE_COLOR_DEPTH
  {
    assert Pow2(4) == 16 by {
      assert Pow2(1) == 2 && Pow2(2) == 4 && Pow2(3) == 8;
    }
    if bitCount < TRUE_COLOR_DEPTH {
      if bitCount <= 4 {
        Pow2Grows(bitCount, 4);
      } else {
        Pow2Grows(5, bitCount);
        assert Pow2(5) == 32;
      }
    }
  }

  /** `n` bytes of a zero-filled buffer after `s` is written into its start. */
  function Fit(s: seq<byte>, n: nat): (r: seq<byte>)
    ensures |r| == n
    ensures forall i :: 0 <= i < n ==> r[i] == if i < |s| then s[i] else 0
  {
    if n <= |s| then s[..n] else s + Zeros(n - |s|)
  }

  lemma FitPrefix(s: seq<byte>, n: nat, m: nat)
    requires m <= n
    ensures Fit(s, n)[..m] == Fit(s, m)
  {
  }

  /** Length of the buffer after `slice(0, biSize + colors)`. */
  function TrimmedLength(h: BitmapInfoHeader): nat
  {
    Min(h.biSize + ColorTableBytes(h.biBitCount), STRUCT_SIZE)
  }

  /** The header with `biCompression = 0`, as it is before the data query. */
  function Uncompressed(h: BitmapInfoHeader): BitmapInfoHeader
  {
    h.(biCompression := 0)
  }

  /** The whole preallocated structure once the data query has written the
      colour table after the header. */
  function StructImage(h: BitmapInfoHeader, table: seq<byte>): (r: seq<byte>)
    requires h.Valid()
    ensures |r| == STRUCT_SIZE
  {
    EncodeHeader(Uncompressed(h)) + Fit(table, TABLE_CAPACITY)
  }

  /** The bytes of the trimmed structure that go into the file between the
      file header and the pixels. */
  function InfoBlock(h: BitmapInfoHeader, table: seq<byte>): (r: seq<byte>)
    requires h.Valid() && HEADER_SIZE <= TrimmedLength(h)
    ensures |r| == TrimmedLength(h) && r[..HEADER_SIZE] == EncodeHeader(Uncompressed(h))
  {
    EncodeHeader(Uncompressed(h)) + Fit(table, TrimmedLength(h) - HEADER_SIZE)
  }

  /** `54 + colors`, the value of the pixel-data offset field: the two
      headers followed by whole table entries, none for true colour. */
  function PixelOffset(h: BitmapInfoHeader): (r: nat)
    ensures HEADERS_SIZE <= r && (r - HEADERS_SIZE) % ENTRY_SIZE == 0
    ensures r == HEADERS_SIZE <==> h.biBitCount >= TRUE_COLOR_DEPTH
  {
    HEADERS_SIZE + ColorTableBytes(h.biBitCount)
  }

  /** `data.byteLength + 54 + colors`, the value of the size field: the
      pixel bytes follow the pixel offset. */
  function FileSize(h: BitmapInfoHeader): (r: nat)
    ensures PixelOffset(h) <= r && r - PixelOffset(h) == h.biSizeImage
  {
    h.biSizeImage + HEADERS_SIZE + ColorTableBytes(h.biBitCount)
  }

  /** The 14-byte file header: "BM", the size, a reserved zero and the offset,
      each 32-bit field little-endian. */
  function FileHeader(size: nat, offset: nat): (r: seq<byte>)
    requires IsU32(size) && IsU32(offset)
    ensures |r| == FILE_HEADER_SIZE
    ensures r[0] == 'B' as byte && r[1] == 'M' as byte
    ensures U32At(r, 2) == size && U32At(r, 6) == 0 && U32At(r, 10) == offset
  {
    var r := ['B' as byte, 'M' as byte] + LE32(size) + LE32(0) + LE32(offset);
    U32Field(r, 2, size);
    U32Field(r, 6, 0);
    U32Field(r, 10, offset);
    r
  }

  /** The file loadBitmap returns once every call has succeeded. */
  function FileBytes(h: BitmapInfoHeader, table: seq<byte>, pixels: seq<byte>): (r: seq<byte>)
    requires h.Valid() && HEADER_SIZE <= TrimmedLength(h) && IsU32(FileSize(h))
    ensures |r| == FILE_HEADER_SIZE + TrimmedLength(h) + h.biSizeImage
    ensures r[..FILE_HEADER_SIZE] == FileHeader(FileSize(h), PixelOffset(h))
  {
    FileHeader(FileSize(h), PixelOffset(h)) + InfoBlock(h, table) + Fit(pixels, h.biSizeImage)
  }

  lemma FileBytesOfParts(h: BitmapInfoHeader, table: seq<byte>, pixels: seq<byte>,
                         header: seq<byte>, info: seq<byte>, data: seq<byte>)
    requires h.Valid() && HEADER_SIZE <= TrimmedLength(h) && IsU32(FileSize(h))
    requires header == FileHeader(FileSize(h), PixelOffset(h))
    requires info == InfoBlock(h, table) && data == Fit(pixels, h.biSizeImage)
    ensures header + info + data == FileBytes(h, table, pixels)
  {
  }

  /** Whether every step of loadBitmap succeeds. */
  predicate Succeeds(os: Os)
  {
    os.screenDc && os.info.InfoFilled? && HEADER_SIZE <= TrimmedLength(os.info.header) &&
    os.bits.BitsFilled? && IsU32(FileSize(os.info.header))
  }

  /** Writes the little-endian bytes of `v` at `off`, as `writeUInt32LE`. */
  method WriteU32LE(a: array<byte>, off: nat, v: nat)
    requires IsU32(v) && off + 4 <= a.Length
    modifies a
    ensures a[..] == old(a[..])[..off] + LE32(v) + old(a[..])[off + 4..]
  {
    var bytes := LE32(v);
    a[off], a[off + 1], a[off + 2], a[off + 3] := bytes[0], bytes[1], bytes[2], bytes[3];
  }

  /** The OS writing `src` into the start of the zero-filled `dst`, as far
      as `dst` reaches. */
  method Receive(dst: array<byte>, src: seq<byte>)
    requires dst[..] == Zeros(dst.Length)
    modifies dst
    ensures dst[..] == Fit(src, dst.Length)
  {
    var i := 0;
    while i < dst.Length && i < |src|
      invariant 0 <= i <= dst.Length
      invariant i <= |src|
      invariant forall k :: 0 <= k < dst.Length ==> dst[k] == if k < i then src[k] else 0
    {
      dst[i] := src[i];
      i := i + 1;
    }
  }

  /** Encoding the header with another compression value changes only the
      four bytes of `biCompression`. */
  lemma EncodeSetsCompression(h: BitmapInfoHeader, v: nat)
    requires h.Valid() && IsU32(v)
    ensures EncodeHeader(h.(biCompression := v)) ==
            EncodeHeader(h)[..OFF_COMPRESSION] + LE32(v) + EncodeHeader(h)[OFF_COMPRESSION + 4..]
  {
  }

  /** The fields the code reads back from a buffer that starts with a stored header. */
  lemma FieldsOfStoredHeader(b: seq<byte>, h: BitmapInfoHeader)
    requires h.Valid() && HEADER_SIZE <= |b| && b[..HEADER_SIZE] == EncodeHeader(h)
    ensures U32At(b, OFF_SIZE) == h.biSize && U16At(b, OFF_BIT_COUNT) == h.biBitCount
    ensures U32At(b, OFF_SIZE_IMAGE) == h.biSizeImage
  {
    var e := b[..HEADER_SIZE];
    DecodeEncodeHeader(h);
    U32AtSlice(b, OFF_SIZE, e, OFF_SIZE);
    U32AtSlice(b, OFF_SIZE_IMAGE, e, OFF_SIZE_IMAGE);
    assert b[OFF_BIT_COUNT] == e[OFF_BIT_COUNT] && b[OFF_BIT_COUNT + 1] == e[OFF_BIT_COUNT + 1];
  }

  /** Overwriting `x` at `off` inside a prefix `e` of `b` changes that prefix
      in the same way. */
  lemma PatchPrefix(b: seq<byte>, e: seq<byte>, off: nat, x: seq<byte>)
    requires |e| <= |b| && b[..|e|] == e && off + |x| <= |e|
    ensures (b[..off] + x + b[off + |x|..])[..|e|] == e[..off] + x + e[off + |x|..]
  {
  }

  /** Lines 86-92: a new structure, cleared, with `biSize` set to 40. */
  method NewInfoStruct() returns (bitmap: BitmapInfoStruct)
    ensures fresh(bitmap) && fresh(bitmap.buffer)
    ensures bitmap.buffer[..] == LE32(HEADER_SIZE) + Zeros(STRUCT_SIZE - 4)
  {
    bitmap := new BitmapInfoStruct();
    bitmap.Fill(0);
    bitmap.SetU32(OFF_SIZE, HEADER_SIZE);
  }

  /** Lines 105-106: the colour-table size from the stored depth, and the
      buffer cut to `biSize + colors` bytes. */
  method TrimColorTable(bitmap: BitmapInfoStruct, ghost h: BitmapInfoHeader) returns (colors: nat)
    requires h.Valid() && HEADER_SIZE <= bitmap.buffer.Length
    requires bitmap.buffer[..HEADER_SIZE] == EncodeHeader(h)
    modifies bitmap
    ensures colors == ColorTableBytes(h.biBitCount)
    ensures fresh(bitmap.buffer)
    ensures bitmap.buffer[..] == old(bitmap.buffer[..])[..Min(h.biSize + colors, old(bitmap.buffer.Length))]
  {
    FieldsOfStoredHeader(bitmap.buffer[..], h);
    colors := ColorTableBytes(bitmap.GetU16(OFF_BIT_COUNT));
    bitmap.Slice(bitmap.GetU32(OFF_SIZE) + colors);
  }

  /** Line 109: `biCompression = 0`; the other header fields and the colour
      table keep their bytes. */
  method ResetCompression(bitmap: BitmapInfoStruct, ghost h: BitmapInfoHeader)
    requires h.Valid() && HEADER_SIZE <= bitmap.buffer.Length
    requires bitmap.buffer[..HEADER_SIZE] == EncodeHeader(h)
    modifies bitmap.buffer
    ensures bitmap.buffer[..HEADER_SIZE] == EncodeHeader(Uncompressed(h))
    ensures bitmap.buffer[HEADER_SIZE..] == old(bitmap.buffer[HEADER_SIZE..])
  {
    ghost var before := bitmap.buffer[..];
    bitmap.SetU32(OFF_COMPRESSION, 0);
    PatchPrefix(before, EncodeHeader(h), OFF_COMPRESSION, LE32(0));
    EncodeSetsCompression(h, 0);
  }

  /** Lines 118-128: fourteen zero bytes, then "BM", the size, the reserved
      zero and the offset written in place. */
  method BuildFileHeader(size: nat, offset: nat) returns (header: array<byte>)
    requires IsU32(size) && IsU32(offset)
    ensures fresh(header) && header[..] == FileHeader(size, offset)
  {
    header := new byte[FILE_HEADER_SIZE](_ => 0);
    header[0] := 'B' as byte;
    header[1] := 'M' as byte;
    WriteU32LE(header, 2, size);
    WriteU32LE(header, 6, 0);
    WriteU32LE(header, 10, offset);
  }

  /** What the query half of loadBitmap leaves behind: the trimmed
      structure, the pixel buffer and the colour-table size. */
  datatype Dib = Dib(info: seq<byte>, data: seq<byte>, colors: nat)

  datatype DibResult = DibRead(dib: Dib) | DibFailed(error: LoadError)

  /** Whether both queries succeed and the trimmed structure can back the header. */
  predicate QueriesSucceed(os: Os)
  {
    os.screenDc && os.info.InfoFilled? && HEADER_SIZE <= TrimmedLength(os.info.header) &&
    os.bits.BitsFilled?
  }

  /** The error of the first step that fails, in the order the code runs. */
  function DibError(os: Os): (e: LoadError)
    requires !QueriesSucceed(os)
    ensures e != FileSizeOutOfRange
    ensures e == ScreenDcUnavailable <==> !os.screenDc
    ensures e == InfoQueryError ==> os.info.InfoFailed?
    ensures e == HeaderTooShort ==> os.info.InfoFilled? && TrimmedLength(os.info.header) < HEADER_SIZE
    ensures e == DataQueryError ==> os.bits.BitsFailed?
  {
    if !os.screenDc then ScreenDcUnavailable
    else if os.info.InfoFailed? then InfoQueryError
    else if TrimmedLength(os.info.header) < HEADER_SIZE then HeaderTooShort
    else DataQueryError
  }

  /** Lines 86-115 of loadBitmap: clear the structure, query the header,
      trim the colour table, reset the compression and query the pixels.
      Each error is the one thrown by the step that fails, in program order. */
  method ReadDib(os: Os) returns (r: DibResult)
    requires os.Valid()
    ensures !os.screenDc ==> r == DibFailed(ScreenDcUnavailable)
    ensures os.screenDc && os.info.InfoFailed? ==> r == DibFailed(InfoQueryError)
    ensures os.screenDc && os.info.InfoFilled? && TrimmedLength(os.info.header) < HEADER_SIZE ==>
              r == DibFailed(HeaderTooShort)
    ensures (os.screenDc && os.info.InfoFilled? && HEADER_SIZE <= TrimmedLength(os.info.header) &&
             os.bits.BitsFailed?) ==> r == DibFailed(DataQueryError)
    ensures r.DibRead? <==> QueriesSucceed(os)
    ensures r.DibFailed? ==> r.error == DibError(os)
    ensures r.DibRead? ==>
              r.dib.info == InfoBlock(os.info.header, os.bits.table) &&
              r.dib.data == Fit(os.bits.pixels, os.info.header.biSizeImage) &&
              r.dib.colors == ColorTableBytes(os.info.header.biBitCount)
  {
    var bitmap := NewInfoStruct();
    if !os.screenDc {
      return DibFailed(ScreenDcUnavailable);
    }
    if os.info.InfoFailed? {
      return DibFailed(InfoQueryError);
    }
    // The header query fills in every header field.
    var h := os.info.header;
    bitmap.Store(0, EncodeHeader(h));
    assert bitmap.buffer[..HEADER_SIZE] == EncodeHeader(h);

    var colors := TrimColorTable(bitmap, h);
    if bitmap.buffer.Length < HEADER_SIZE {
      return DibFailed(HeaderTooShort);
    }
    assert bitmap.buffer[..HEADER_SIZE] == EncodeHeader(h);
    ResetCompression(bitmap, h);
    FieldsOfStoredHeader(bitmap.buffer[..], Uncompressed(h));

    var data := new byte[bitmap.GetU32(OFF_SIZE_IMAGE)](_ => 0);
    if os.bits.BitsFailed? {
      return DibFailed(DataQueryError);
    }
    // The data query writes the colour table after the header and the pixels into data.
    var len := bitmap.buffer.Length;
    assert len == TrimmedLength(h);
    ghost var before := bitmap.buffer[..];
    bitmap.Store(HEADER_SIZE, Fit(os.bits.table, len - HEADER_SIZE));
    var info := bitmap.buffer[..];
    assert info == before[..HEADER_SIZE] + Fit(os.bits.table, len - HEADER_SIZE);
    assert data[..] == Zeros(h.biSizeImage);
    Receive(data, os.bits.pixels);
    r := DibRead(Dib(info, data[..], colors));
  }

  /** loadBitmap. Each error is reported at the step that throws it, in the
      order the code runs; on success the result is the file header, the
      trimmed structure and the pixels, with the depth read from the header. */
  method LoadBitmap(os: Os) returns (r: LoadResult)
    requires os.Valid()
    ensures !QueriesSucceed(os) ==> r == Failed(DibError(os))
    ensures QueriesSucceed(os) && !IsU32(FileSize(os.info.header)) ==> r == Failed(FileSizeOutOfRange)
    ensures r.Loaded? <==> Succeeds(os)
    ensures r.Loaded? ==>
              r.bitmap.data == FileBytes(os.info.header, os.bits.table, os.bits.pixels) &&
              r.bitmap.depth == os.info.header.biBitCount
  {
    var read := ReadDib(os);
    if read.DibFailed? {
      return Failed(read.error);
    }
    var dib := read.dib;
    // Lines 118-128: the file header.
    var fileSize := |dib.data| + HEADERS_SIZE + dib.colors;
    if !IsU32(fileSize) {
      return Failed(FileSizeOutOfRange);
    }
    var header := BuildFileHeader(fileSize, HEADERS_SIZE + dib.colors);
    ghost var h := os.info.header;
    assert fileSize == FileSize(h) && HEADERS_SIZE + dib.colors == PixelOffset(h);
    FileBytesOfParts(h, os.bits.table, os.bits.pixels, header[..], dib.info, dib.data);
    FieldsOfStoredHeader(dib.info, Uncompressed(h));
    r := Loaded(LoadedBitmap(header[..] + dib.info + dib.data, U16At(dib.info, OFF_BIT_COUNT)));
  }
}

/** Properties of the file loadBitmap builds, and of the file it should build. */
module BmpFileFacts {
  import opened Bytes
  import opened BitmapInfo
  import opened BmpFile

  /** The trimmed structure is a prefix of the preallocated 104-byte
      structure, `min(biSize + colors, 104)` bytes long: slicing never grows it. */
  lemma InfoBlockIsStructPrefix(h: BitmapInfoHeader, table: seq<byte>)
    requires h.Valid() && HEADER_SIZE <= TrimmedLength(h)
    ensures |InfoBlock(h, table)| == Min(h.biSize + ColorTableBytes(h.biBitCount), STRUCT_SIZE)
    ensures |InfoBlock(h, table)| <= STRUCT_SIZE
    ensures InfoBlock(h, table) == StructImage(h, table)[..|InfoBlock(h, table)|]
  {
    var n := TrimmedLength(h) - HEADER_SIZE;
    FitPrefix(table, TABLE_CAPACITY, n);
    assert StructImage(h, table)[..HEADER_SIZE + n] ==
           EncodeHeader(Uncompressed(h)) + Fit(table, TABLE_CAPACITY)[..n];
  }

  /** The header that goes into the file reads back with `biCompression`
      zero and every other field as the header query left it. */
  lemma {:induction false} CompressionReset(h: BitmapInfoHeader, table: seq<byte>)
    requires h.Valid() && HEADER_SIZE <= TrimmedLength(h)
    ensures DecodeHeader(InfoBlock(h, table)).biCompression == 0
    ensures DecodeHeader(InfoBlock(h, table)).(biCompression := h.biCompression) == h
  {
    var b := InfoBlock(h, table);
    DecodeEncodeHeader(Uncompressed(h));
    FieldsOfStoredHeader(b, Uncompressed(h));
    assert b[..HEADER_SIZE] == EncodeHeader(Uncompressed(h));
    DecodePrefix(b);
  }

  /** Decoding only looks at the first 40 bytes. */
  lemma DecodePrefix(b: seq<byte>)
    requires HEADER_SIZE <= |b|
    ensures DecodeHeader(b) == DecodeHeader(b[..HEADER_SIZE])
  {
    var e := b[..HEADER_SIZE];
    U32AtSlice(b, OFF_SIZE, e, OFF_SIZE);
    U32AtSlice(b, OFF_WIDTH, e, OFF_WIDTH);
    U32AtSlice(b, OFF_HEIGHT, e, OFF_HEIGHT);
    U32AtSlice(b, OFF_COMPRESSION, e, OFF_COMPRESSION);
    U32AtSlice(b, OFF_SIZE_IMAGE, e, OFF_SIZE_IMAGE);
    U32AtSlice(b, OFF_X_PELS, e, OFF_X_PELS);
    U32AtSlice(b, OFF_Y_PELS, e, OFF_Y_PELS);
    U32AtSlice(b, OFF_CLR_USED, e, OFF_CLR_USED);
    U32AtSlice(b, OFF_CLR_IMPORTANT, e, OFF_CLR_IMPORTANT);
  }

  /** The file starts with "BM", carries `data + 54 + colors` as its size,
      zero as its reserved field and `54 + colors` as its pixel offset; the
      size minus the offset is the length of the pixel bytes, which end the
      file, and the trimmed structure sits between header and pixels. */
  lemma {:induction false} FileLayout(h: BitmapInfoHeader, table: seq<byte>, pixels: seq<byte>)
    requires h.Valid() && HEADER_SIZE <= TrimmedLength(h) && IsU32(FileSize(h))
    ensures var f := FileBytes(h, table, pixels);
      |f| == FILE_HEADER_SIZE + |InfoBlock(h, table)| + h.biSizeImage &&
      f[0] == 'B' as byte && f[1] == 'M' as byte &&
      U32At(f, 2) == FileSize(h) && U32At(f, 6) == 0 && U32At(f, 10) == PixelOffset(h) &&
      U32At(f, 10) <= U32At(f, 2) && U32At(f, 2) - U32At(f, 10) == h.biSizeImage &&
      f[FILE_HEADER_SIZE..FILE_HEADER_SIZE + |InfoBlock(h, table)|] == InfoBlock(h, table) &&
      f[|f| - h.biSizeImage..] == Fit(pixels, h.biSizeImage)
  {
    var head := FileHeader(FileSize(h), PixelOffset(h));
    var f := FileBytes(h, table, pixels);
    assert f[..FILE_HEADER_SIZE] == head;
    U32AtSlice(f, 2, head, 2);
    U32AtSlice(f, 6, head, 6);
    U32AtSlice(f, 10, head, 10);
  }

  /** The size field equals the real length of the file, and the offset field
      the real position of the pixels, exactly when the trimmed structure is
      40 bytes plus the whole colour table. */
  lemma {:induction false} FieldsMatchFile(h: BitmapInfoHeader, table: seq<byte>, pixels: seq<byte>)
    requires h.Valid() && HEADER_SIZE <= TrimmedLength(h) && IsU32(FileSize(h))
    ensures var f := FileBytes(h, table, pixels);
      (|f| == U32At(f, 2) <==> TrimmedLength(h) == HEADER_SIZE + ColorTableBytes(h.biBitCount)) &&
      (U32At(f, 10) == FILE_HEADER_SIZE + |InfoBlock(h, table)| <==>
         TrimmedLength(h) == HEADER_SIZE + ColorTableBytes(h.biBitCount))
  {
    FileLayout(h, table, pixels);
  }

  /** With the 40-byte header the code asks for, the file is self-consistent
      exactly when the depth is at most 4 or at least 24. */
  lemma {:induction false} StandardHeaderConsistency(h: BitmapInfoHeader, table: seq<byte>, pixels: seq<byte>)
    requires h.Valid() && h.biSize == HEADER_SIZE && IsU32(FileSize(h))
    ensures HEADER_SIZE <= TrimmedLength(h)
    ensures var f := FileBytes(h, table, pixels);
      |f| == U32At(f, 2) <==> h.biBitCount <= 4 || h.biBitCount >= TRUE_COLOR_DEPTH
  {
    FieldsMatchFile(h, table, pixels);
    ColorTableFits(h.biBitCount);
  }

  /** As written, for depths 5 to 23 with the 40-byte header the size field
      overstates the file and the offset field points past the start of the
      pixels, because the colour table was cut to 16 entries. */
  lemma {:induction false} MidDepthFieldsOverstate(h: BitmapInfoHeader, table: seq<byte>, pixels: seq<byte>)
    requires h.Valid() && h.biSize == HEADER_SIZE && IsU32(FileSize(h))
    requires 4 < h.biBitCount < TRUE_COLOR_DEPTH
    ensures HEADER_SIZE <= TrimmedLength(h)
    ensures var f := FileBytes(h, table, pixels);
      |f| < U32At(f, 2) && FILE_HEADER_SIZE + |InfoBlock(h, table)| < U32At(f, 10)
  {
    ColorTableFits(h.biBitCount);
    FileLayout(h, table, pixels);
  }

  /** A 32x32 icon of depth 8: the file is 1142 bytes but claims 2102, and
      its pixels start at 118 while the header says 1078. */
  lemma EightBitIcon(table: seq<byte>, pixels: seq<byte>)
    ensures var h := BitmapInfoHeader(40, 32, 32, 1, 8, 0, 1024, 0, 0, 0, 0);
      h.Valid() && HEADER_SIZE <= TrimmedLength(h) && IsU32(FileSize(h)) &&
      |FileBytes(h, table, pixels)| == 1142 && U32At(FileBytes(h, table, pixels), 2) == 2102 &&
      U32At(FileBytes(h, table, pixels), 10) == 1078
  {
    var h := BitmapInfoHeader(40, 32, 32, 1, 8, 0, 1024, 0, 0, 0, 0);
    assert Pow2(8) == 256 by {
      assert Pow2(1) == 2 && Pow2(2) == 4 && Pow2(3) == 8 && Pow2(4) == 16;
      assert Pow2(5) == 32 && Pow2(6) == 64 && Pow2(7) == 128;
    }
    FileLayout(h, table, pixels);
  }

  /** A standalone bitmap whose size and offset fields are computed from the
      parts actually concatenated. */
  function Assemble(info: seq<byte>, pixels: seq<byte>): (r: seq<byte>)
    requires IsU32(FILE_HEADER_SIZE + |info| + |pixels|)
    ensures |r| == FILE_HEADER_SIZE + |info| + |pixels|
    ensures |r| == U32At(r, 2) && r[0] == 'B' as byte && r[1] == 'M' as byte
    ensures U32At(r, 10) == FILE_HEADER_SIZE + |info| && U32At(r, 6) == 0
    ensures r[FILE_HEADER_SIZE..U32At(r, 10)] == info && r[U32At(r, 10)..] == pixels
  {
    var head := FileHeader(FILE_HEADER_SIZE + |info| + |pixels|, FILE_HEADER_SIZE + |info|);
    var r := head + info + pixels;
    assert r[..FILE_HEADER_SIZE] == head;
    U32AtSlice(r, 2, head, 2);
    U32AtSlice(r, 6, head, 6);
    U32AtSlice(r, 10, head, 10);
    r
  }

  /** The file with the colour table kept whole: the header followed by all
      `colors` bytes of table, then the pixels. */
  function FullTableFile(h: BitmapInfoHeader, table: seq<byte>, pixels: seq<byte>): seq<byte>
    requires h.Valid() && IsU32(FileSize(h))
  {
    Assemble(EncodeHeader(Uncompressed(h)) + Fit(table, ColorTableBytes(h.biBitCount)),
             Fit(pixels, h.biSizeImage))
  }

  /** With the whole table kept, the code's own size `data + 54 + colors`
      and offset `54 + colors` are right for every depth. */
  lemma {:induction false} FullTableFileFields(h: BitmapInfoHeader, table: seq<byte>, pixels: seq<byte>)
    requires h.Valid() && IsU32(FileSize(h))
    ensures var f := FullTableFile(h, table, pixels);
      |f| == U32At(f, 2) == FileSize(h) && U32At(f, 10) == PixelOffset(h) &&
      f[PixelOffset(h)..] == Fit(pixels, h.biSizeImage)
  {
  }

  /** Where the table fits, the file loadBitmap builds is the full-table file. */
  lemma {:induction false} FittingTableAgrees(h: BitmapInfoHeader, table: seq<byte>, pixels: seq<byte>)
    requires h.Valid() && h.biSize == HEADER_SIZE && IsU32(FileSize(h))
    requires h.biBitCount <= 4 || h.biBitCount >= TRUE_COLOR_DEPTH
    ensures HEADER_SIZE <= TrimmedLength(h)
    ensures FileBytes(h, table, pixels) == FullTableFile(h, table, pixels)
  {
    ColorTableFits(h.biBitCount);
    assert TrimmedLength(h) - HEADER_SIZE == ColorTableBytes(h.biBitCount);
  }
}
