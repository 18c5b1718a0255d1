/** The `bitmapInfo` structure of index.js: a 40-byte BITMAPINFOHEADER
    followed by a colour table preallocated for 16 palette entries, laid out
    as ref-struct lays it out on Windows (`ulong` and `long` are 4 bytes). */
module BitmapInfo {
  import opened Bytes

  /** Size of BITMAPINFOHEADER, the value the code stores in `biSize`. */
  const HEADER_SIZE: nat := 40
  /** Palette entries preallocated by the struct definition. */
  const PALETTE_ENTRIES: nat := 16
  /** Bytes per palette entry (red, green, blue, unused). */
  const ENTRY_SIZE: nat := 4
  /** Size of the whole preallocated structure: 40 + 16 * 4 = 104 bytes. */
  const STRUCT_SIZE: nat := HEADER_SIZE + PALETTE_ENTRIES * ENTRY_SIZE

  // Byte offsets of the header fields.
  const OFF_SIZE: nat := 0
  const OFF_WIDTH: nat := 4
  const OFF_HEIGHT: nat := 8
  const OFF_PLANES: nat := 12
  const OFF_BIT_COUNT: nat := 14
  const OFF_COMPRESSION: nat := 16
  const OFF_SIZE_IMAGE: nat := 20
  const OFF_X_PELS: nat := 24
  const OFF_Y_PELS: nat := 28
  const OFF_CLR_USED: nat := 32
  const OFF_CLR_IMPORTANT: nat := 36

  /** The header fields as numbers; `long` fields are signed. */
  datatype BitmapInfoHeader = BitmapInfoHeader(
    biSize: nat,
    biWidth: int,
    biHeight: int,
    biPlanes: nat,
    biBitCount: nat,
    biCompression: nat,
    biSizeImage: nat,
    biXPelsPerMeter: int,
    biYPelsPerMeter: int,
    biClrUsed: nat,
    biClrImportant: nat)
  {
    /** Every field fits its C type. */
    predicate Valid() {
      IsU32(biSize) && IsI32(biWidth) && IsI32(biHeight) && IsU16(biPlanes) &&
      IsU16(biBitCount) && IsU32(biCompression) && IsU32(biSizeImage) &&
      IsI32(biXPelsPerMeter) && IsI32(biYPelsPerMeter) && IsU32(biClrUsed) &&
      IsU32(biClrImportant)
    }
  }

  /** The 40 bytes the header occupies in memory. */
  function EncodeHeader(h: BitmapInfoHeader): (r: seq<byte>)
    requires h.Valid()
    ensures |r| == HEADER_SIZE
  {
    LE32(h.biSize) + LE32(I32Bits(h.biWidth)) + LE32(I32Bits(h.biHeight)) +
    LE16(h.biPlanes) + LE16(h.biBitCount) + LE32(h.biCompression) +
    LE32(h.biSizeImage) + LE32(I32Bits(h.biXPelsPerMeter)) +
    LE32(I32Bits(h.biYPelsPerMeter)) + LE32(h.biClrUsed) + LE32(h.biClrImportant)
  }

  /** The header fields that ref-struct reads from the first 40 bytes of `b`. */
  function DecodeHeader(b: seq<byte>): (h: BitmapInfoHeader)
    requires HEADER_SIZE <= |b|
    ensures h.Valid()
  {
    BitmapInfoHeader(
      U32At(b, OFF_SIZE), I32Of(U32At(b, OFF_WIDTH)), I32Of(U32At(b, OFF_HEIGHT)),
      U16At(b, OFF_PLANES), U16At(b, OFF_BIT_COUNT), U32At(b, OFF_COMPRESSION),
      U32At(b, OFF_SIZE_IMAGE), I32Of(U32At(b, OFF_X_PELS)), I32Of(U32At(b, OFF_Y_PELS)),
      U32At(b, OFF_CLR_USED), U32At(b, OFF_CLR_IMPORTANT))
  }

  /** The stored header holds each field little-endian at its offset, in
      declaration order and with no padding. */
  lemma HeaderLayout(h: BitmapInfoHeader)
    requires h.Valid()
    ensures var r := EncodeHeader(h);
      r[OFF_SIZE..OFF_SIZE + 4] == LE32(h.biSize) &&
      r[OFF_WIDTH..OFF_WIDTH + 4] == LE32(I32Bits(h.biWidth)) &&
      r[OFF_HEIGHT..OFF_HEIGHT + 4] == LE32(I32Bits(h.biHeight)) &&
      r[OFF_PLANES..OFF_PLANES + 2] == LE16(h.biPlanes) &&
      r[OFF_BIT_COUNT..OFF_BIT_COUNT + 2] == LE16(h.biBitCount) &&
      r[OFF_COMPRESSION..OFF_COMPRESSION + 4] == LE32(h.biCompression) &&
      r[OFF_SIZE_IMAGE..OFF_SIZE_IMAGE + 4] == LE32(h.biSizeImage) &&
      r[OFF_X_PELS..OFF_X_PELS + 4] == LE32(I32Bits(h.biXPelsPerMeter)) &&
      r[OFF_Y_PELS..OFF_Y_PELS + 4] == LE32(I32Bits(h.biYPelsPerMeter)) &&
      r[OFF_CLR_USED..OFF_CLR_USED + 4] == LE32(h.biClrUsed) &&
      r[OFF_CLR_IMPORTANT..OFF_CLR_IMPORTANT + 4] == LE32(h.biClrImportant)
  {
  }

  /** Reading the fields back from the stored header gives the header. */
  lemma {:induction false} DecodeEncodeHeader(h: BitmapInfoHeader)
    requires h.Valid()
    ensures DecodeHeader(EncodeHeader(h)) == h
  {
    var r := EncodeHeader(h);
    U32Field(r, OFF_SIZE, h.biSize);
    U32Field(r, OFF_WIDTH, I32Bits(h.biWidth));
    U32Field(r, OFF_HEIGHT, I32Bits(h.biHeight));
    U16Field(r, OFF_PLANES, h.biPlanes);
    U16Field(r, OFF_BIT_COUNT, h.biBitCount);
    U32Field(r, OFF_COMPRESSION, h.biCompression);
    U32Field(r, OFF_SIZE_IMAGE, h.biSizeImage);
    U32Field(r, OFF_X_PELS, I32Bits(h.biXPelsPerMeter));
    U32Field(r, OFF_Y_PELS, I32Bits(h.biYPelsPerMeter));
    U32Field(r, OFF_CLR_USED, h.biClrUsed);
    U32Field(r, OFF_CLR_IMPORTANT, h.biClrImportant);
  }

  /** Every 40-byte block is the stored form of the header read from it. */
  lemma {:induction false} EncodeDecodeHeader(b: seq<byte>)
    requires HEADER_SIZE <= |b|
    ensures EncodeHeader(DecodeHeader(b)) == b[..HEADER_SIZE]
  {
    var h := DecodeHeader(b);
    LE32OfU32At(b, OFF_SIZE);
    LE32OfU32At(b, OFF_WIDTH);
    LE32OfU32At(b, OFF_HEIGHT);
    LE16OfU16At(b, OFF_PLANES);
    LE16OfU16At(b, OFF_BIT_COUNT);
    LE32OfU32At(b, OFF_COMPRESSION);
    LE32OfU32At(b, OFF_SIZE_IMAGE);
    LE32OfU32At(b, OFF_X_PELS);
    LE32OfU32At(b, OFF_Y_PELS);
    LE32OfU32At(b, OFF_CLR_USED);
    LE32OfU32At(b, OFF_CLR_IMPORTANT);
    I32BitsOfI32Of(U32At(b, OFF_WIDTH));
    I32BitsOfI32Of(U32At(b, OFF_HEIGHT));
    I32BitsOfI32Of(U32At(b, OFF_X_PELS));
    I32BitsOfI32Of(U32At(b, OFF_Y_PELS));
    assert b[..HEADER_SIZE] ==
      b[0..4] + b[4..8] + b[8..12] + b[12..14] + b[14..16] + b[16..20] +
      b[20..24] + b[24..28] + b[28..32] + b[32..36] + b[36..40];
  }

  /** The ref-struct object `bitmap` of loadBitmap: its fields live in a byte
      buffer (`bitmap['ref.buffer']`), which the code replaces by a slice. */
  class BitmapInfoStruct {
    var buffer: array<byte>

    /** `new bitmapInfo()`: a fresh buffer of the structure's size, contents
        not yet cleared. */
    constructor ()
      ensures fresh(buffer) && buffer.Length == STRUCT_SIZE
    {
      buffer := new byte[STRUCT_SIZE];
    }

    /** `bitmap['ref.buffer'].fill(v)`. */
    method Fill(v: byte)
      modifies buffer
      ensures buffer[..] == seq(buffer.Length, _ => v)
    {
      var i := 0;
      while i < buffer.Length
        invariant 0 <= i <= buffer.Length
        invariant forall k :: 0 <= k < i ==> buffer[k] == v
      {
        buffer[i] := v;
        i := i + 1;
      }
    }

    /** Writes `bytes` at offset `off`, leaving every other byte as it was. */
    method Store(off: nat, bytes: seq<byte>)
      requires off + |bytes| <= buffer.Length
      modifies buffer
      ensures buffer[..] == old(buffer[..])[..off] + bytes + old(buffer[..])[off + |bytes|..]
    {
      var i := 0;
      while i < |bytes|
        invariant 0 <= i <= |bytes|
        invariant forall k :: 0 <= k < buffer.Length ==>
                    buffer[k] == if off <= k < off + i then bytes[k - off] else old(buffer[k])
      {
        buffer[off + i] := bytes[i];
        i := i + 1;
      }
      assert buffer[..] == old(buffer[..])[..off] + bytes + old(buffer[..])[off + |bytes|..];
    }

    /** Assigning an unsigned 32-bit field, e.g. `bitmap.bmiHeader.biSize = 40`. */
    method SetU32(off: nat, v: nat)
      requires IsU32(v) && off + 4 <= buffer.Length
      modifies buffer
      ensures buffer[..] == old(buffer[..])[..off] + LE32(v) + old(buffer[..])[off + 4..]
    {
      Store(off, LE32(v));
    }

    /** Reading an unsigned 16-bit field. */
    function GetU16(off: nat): nat
      reads this, buffer
      requires off + 2 <= buffer.Length
    {
      U16At(buffer[..], off)
    }

    /** Reading an unsigned 32-bit field. */
    function GetU32(off: nat): nat
      reads this, buffer
      requires off + 4 <= buffer.Length
    {
      U32At(buffer[..], off)
    }

    /** `bitmap['ref.buffer'] = bitmap['ref.buffer'].slice(0, end)`: the
        buffer is replaced by its first `end` bytes, or all of it when `end`
        is past its length; a slice never grows the buffer. */
    method Slice(end: nat)
      modifies this
      ensures fresh(buffer)
      ensures buffer[..] == old(buffer[..])[..Min(end, old(buffer.Length))]
    {
      var src := buffer;
      var n := Min(end, src.Length);
      var b := new byte[n];
      var i := 0;
      while i < n
        invariant 0 <= i <= n
        invariant forall k :: 0 <= k < i ==> b[k] == src[k]
      {
        b[i] := src[i];
        i := i + 1;
      }
      buffer := b;
    }
  }
}
