/** The transparency decision of the exported function in index.js: scan the
    decoded colour bitmap for a pixel whose fourth byte is non-zero, and
    either use the colour bitmap as it is or mask it with the inverted mask
    bitmap. Decoding, masking and PNG encoding belong to bmp-js and jimp. */
module Alpha {
  import opened Bytes

  /** Depths above this one can carry an alpha byte per pixel. */
  const MAX_DEPTH_WITHOUT_ALPHA: nat := 24
  /** Bytes per pixel in a decoded bitmap. */
  const BYTES_PER_PIXEL: nat := 4
  /** Position of the byte the scan tests within a pixel. */
  const ALPHA_BYTE: nat := 3

  /** The part of a bmp-js decoded bitmap the scan reads. */
  datatype DecodedImage = DecodedImage(width: int, height: int, data: seq<byte>)

  /** jimp's `getPixelIndex(x, y)`: four bytes per pixel, row after row. */
  function PixelIndex(width: int, x: int, y: int): (i: int)
    ensures i % BYTES_PER_PIXEL == 0
    ensures 0 <= x && 0 <= y && 0 <= width ==> 0 <= i
  {
    (y * width + x) * BYTES_PER_PIXEL
  }

  /** JavaScript's `data[i] != 0`: an index outside the buffer reads
      `undefined`, which is not equal to 0. */
  predicate ByteNonZero(data: seq<byte>, i: int)
  {
    !(0 <= i < |data|) || data[i] != 0
  }

  /** The byte the scan tests for the pixel at column `x`, row `y`. */
  predicate AlphaAt(img: DecodedImage, x: int, y: int)
  {
    ByteNonZero(img.data, PixelIndex(img.width, x, y) + ALPHA_BYTE)
  }

  /** Some pixel of the image has a non-zero alpha byte. */
  ghost predicate SomePixelHasAlpha(img: DecodedImage)
  {
    exists x, y :: 0 <= x < img.width && 0 <= y < img.height && AlphaAt(img, x, y)
  }

  /** Lines 172-186: `has_alpha`. The scan runs only for depths above 24,
      column by column; the `break` ends only the scan of the current column,
      and the flag, once set, stays set. */
  method HasAlpha(depth: nat, img: DecodedImage) returns (hasAlpha: bool)
    ensures hasAlpha <==> depth > MAX_DEPTH_WITHOUT_ALPHA && SomePixelHasAlpha(img)
  {
    hasAlpha := false;
    if depth > MAX_DEPTH_WITHOUT_ALPHA {
      var xx := 0;
      while xx < img.width
        invariant 0 <= xx
        invariant hasAlpha <==>
          exists x, y :: 0 <= x < xx && x < img.width && 0 <= y < img.height && AlphaAt(img, x, y)
      {
        ghost var before := hasAlpha;
        ghost var hit := -1;
        var yy := 0;
        while yy < img.height
          invariant 0 <= yy
          invariant hasAlpha == before && hit == -1
          invariant forall y :: 0 <= y < yy ==> !AlphaAt(img, xx, y)
        {
          var index := PixelIndex(img.width, xx, yy);
          if ByteNonZero(img.data, index + ALPHA_BYTE) {
            hasAlpha := true;
            hit := yy;
            break;
          }
          yy := yy + 1;
        }
        if hit >= 0 {
          assert 0 <= hit < img.height && AlphaAt(img, xx, hit);
        } else {
          assert forall y :: 0 <= y < img.height ==> !AlphaAt(img, xx, y);
        }
        xx := xx + 1;
      }
    }
  }

  /** A product grows with its left factor. */
  lemma MulMono(a: int, b: int, c: int)
    requires a <= b && 0 <= c
    ensures a * c <= b * c
  {
  }

  /** The alpha byte of a pixel inside the image lies inside a buffer of
      `width * height` four-byte pixels. */
  lemma PixelInBuffer(width: int, height: int, x: int, y: int)
    requires 0 <= x < width && 0 <= y < height
    ensures 0 <= PixelIndex(width, x, y) + ALPHA_BYTE < width * height * BYTES_PER_PIXEL
  {
    MulMono(y, height - 1, width);
    MulMono(0, y, width);
    assert y * width + x < width * height;
  }

  /** The pixel at column `x`, row `y` has a stored alpha byte that is non-zero. */
  predicate StoredAlphaAt(img: DecodedImage, x: int, y: int)
  {
    var i := PixelIndex(img.width, x, y) + ALPHA_BYTE;
    0 <= i < |img.data| && img.data[i] != 0
  }

  /** In a bitmap of `width * height` four-byte pixels, as bmp-js decodes
      it, every tested byte lies inside the buffer, so the scan looks for a
      pixel whose stored alpha byte is non-zero. */
  lemma {:induction false} ScanStaysInBuffer(img: DecodedImage)
    requires |img.data| == img.width * img.height * BYTES_PER_PIXEL
    ensures forall x, y :: 0 <= x < img.width && 0 <= y < img.height ==>
      0 <= PixelIndex(img.width, x, y) + ALPHA_BYTE < |img.data| &&
      (AlphaAt(img, x, y) <==> StoredAlphaAt(img, x, y))
    ensures SomePixelHasAlpha(img) <==>
      exists x, y :: 0 <= x < img.width && 0 <= y < img.height && StoredAlphaAt(img, x, y)
  {
    forall x, y | 0 <= x < img.width && 0 <= y < img.height
      ensures 0 <= PixelIndex(img.width, x, y) + ALPHA_BYTE < |img.data|
      ensures AlphaAt(img, x, y) == StoredAlphaAt(img, x, y)
    {
      PixelInBuffer(img.width, img.height, x, y);
    }
  }

  /** The image the exported function hands to the PNG encoder. */
  datatype Composition =
    | OwnAlpha(image: DecodedImage)                           // colored_img.bitmap = colored_bmp
    | MaskedByInvertedMask(color: DecodedImage, mask: DecodedImage)  // colored_img.mask(mask_img.invert(), 0, 0)

  /** Lines 172-209: with a pixel of non-zero alpha the colour bitmap is used
      unchanged, whatever the mask holds; otherwise, and always at depths up
      to 24, the colour bitmap is masked with the inverted mask bitmap. */
  method Resolve(depth: nat, colored: DecodedImage, mask: DecodedImage) returns (c: Composition)
    ensures c.OwnAlpha? <==> depth > MAX_DEPTH_WITHOUT_ALPHA && SomePixelHasAlpha(colored)
    ensures c.OwnAlpha? ==> c.image == colored
    ensures c.MaskedByInvertedMask? ==> c.color == colored && c.mask == mask
  {
    var hasAlpha := HasAlpha(depth, colored);
    if hasAlpha {
      c := OwnAlpha(colored);
    } else {
      c := MaskedByInvertedMask(colored, mask);
    }
  }
}
