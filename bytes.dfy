/** Bytes and the little-endian integer encodings that Node's Buffer and
    ref-struct use for the Windows bitmap structures. */
module Bytes {

  type byte = x: int | 0 <= x < 256

  const TWO_16: int := 0x1_0000
  const TWO_31: int := 0x8000_0000
  const TWO_32: int := 0x1_0000_0000

  predicate IsU16(v: int) { 0 <= v < TWO_16 }
  predicate IsU32(v: int) { 0 <= v < TWO_32 }
  predicate IsI32(v: int) { -TWO_31 <= v < TWO_31 }

  function Min(a: int, b: int): int { if a <= b then a else b }

  /** `n` zero bytes, as `Buffer.alloc(n)` and `fill(0)` produce. */
  function Zeros(n: nat): (r: seq<byte>)
    ensures |r| == n && forall i :: 0 <= i < n ==> r[i] == 0
  {
    seq(n, _ => 0)
  }

  /** The unsigned 16-bit little-endian value stored at `s[off..off + 2]`. */
  function U16At(s: seq<byte>, off: nat): (v: nat)
    requires off + 2 <= |s|
    ensures IsU16(v)
  {
    s[off] as int + 256 * (s[off + 1] as int)
  }

  /** The unsigned 32-bit little-endian value stored at `s[off..off + 4]`. */
  function U32At(s: seq<byte>, off: nat): (v: nat)
    requires off + 4 <= |s|
    ensures IsU32(v)
  {
    s[off] as int + 256 * (s[off + 1] as int + 256 * (s[off + 2] as int + 256 * (s[off + 3] as int)))
  }

  /** The bytes `writeUInt16LE(v)` stores. */
  function LE16(v: nat): (r: seq<byte>)
    requires IsU16(v)
    ensures |r| == 2 && U16At(r, 0) == v
  {
    [v % 256, v / 256]
  }

  /** The bytes `writeUInt32LE(v)` stores; reading them back gives `v`. */
  function LE32(v: nat): (r: seq<byte>)
    requires IsU32(v)
    ensures |r| == 4 && U32At(r, 0) == v
  {
    var a := v / 256;
    var b := a / 256;
    assert v == v % 256 + 256 * a;
    assert a == a % 256 + 256 * b;
    assert b == b % 256 + 256 * (b / 256);
    [v % 256, a % 256, b % 256, b / 256]
  }

  /** The other half of the round trip: re-encoding a stored value gives back its bytes. */
  lemma LE32OfU32At(s: seq<byte>, off: nat)
    requires off + 4 <= |s|
    ensures LE32(U32At(s, off)) == s[off..off + 4]
  {
    var v := U32At(s, off);
    var c := s[off + 2] as int + 256 * (s[off + 3] as int);
    var a := s[off + 1] as int + 256 * c;
    assert v / 256 == a && v % 256 == s[off];
    assert a / 256 == c && a % 256 == s[off + 1];
    assert c / 256 == s[off + 3] && c % 256 == s[off + 2];
  }

  /** Re-encoding a stored 16-bit value gives back its bytes. */
  lemma LE16OfU16At(s: seq<byte>, off: nat)
    requires off + 2 <= |s|
    ensures LE16(U16At(s, off)) == s[off..off + 2]
  {
  }

  /** Reading a 32-bit value only looks at its four bytes. */
  lemma U32AtSlice(s: seq<byte>, off: nat, t: seq<byte>, toff: nat)
    requires off + 4 <= |s| && toff + 4 <= |t|
    requires s[off..off + 4] == t[toff..toff + 4]
    ensures U32At(s, off) == U32At(t, toff)
  {
    assert s[off] == s[off..off + 4][0] == t[toff];
    assert s[off + 1] == s[off..off + 4][1] == t[toff + 1];
    assert s[off + 2] == s[off..off + 4][2] == t[toff + 2];
    assert s[off + 3] == s[off..off + 4][3] == t[toff + 3];
  }

  /** The 32-bit value stored at `off` is the one whose bytes sit there. */
  lemma U32Field(r: seq<byte>, off: nat, v: nat)
    requires IsU32(v) && off + 4 <= |r| && r[off..off + 4] == LE32(v)
    ensures U32At(r, off) == v
  {
    U32AtSlice(r, off, LE32(v), 0);
  }

  /** The 16-bit value stored at `off` is the one whose bytes sit there. */
  lemma U16Field(r: seq<byte>, off: nat, v: nat)
    requires IsU16(v) && off + 2 <= |r| && r[off..off + 2] == LE16(v)
    ensures U16At(r, off) == v
  {
    assert r[off] == r[off..off + 2][0] && r[off + 1] == r[off..off + 2][1];
  }

  /** Two's-complement bits of a signed 32-bit `long`. */
  function I32Bits(v: int): (u: nat)
    requires IsI32(v)
    ensures IsU32(u) && I32Of(u) == v
  {
    if v < 0 then v + TWO_32 else v
  }

  /** The signed 32-bit value whose two's-complement bits are `u`. */
  function I32Of(u: nat): (v: int)
    requires IsU32(u)
    ensures IsI32(v)
  {
    if u < TWO_31 then u else u - TWO_32
  }

  lemma I32BitsOfI32Of(u: nat)
    requires IsU32(u)
    ensures I32Bits(I32Of(u)) == u
  {
  }
}
