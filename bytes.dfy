/**
 * Fixed-width unsigned integers and their byte layouts.
 *
 * The header structs are read by reinterpreting memory, so every multi-byte
 * field is stored in the byte order of the machine running the decoder. Here
 * that byte order is an explicit flag (`little`), and the reinterpretation is
 * an explicit conversion between a value and its bytes.
 */
module Bytes {

  newtype byte = x: int | 0 <= x < 0x100
  newtype u16 = x: int | 0 <= x < 0x1_0000
  newtype u32 = x: int | 0 <= x < 0x1_0000_0000
  newtype u64 = x: int | 0 <= x < 0x1_0000_0000_0000_0000

  /** 256^n: the number of distinct values an n-byte field can hold. */
  function Pow256(n: nat): (r: nat)
    ensures r >= 1
  {
    if n == 0 then 1 else 256 * Pow256(n - 1)
  }

  lemma Pow256Values()
    ensures Pow256(2) == 0x1_0000
    ensures Pow256(4) == 0x1_0000_0000
    ensures Pow256(8) == 0x1_0000_0000_0000_0000
  {
  }

  /** The value of `s` read least significant byte first. */
  function FromLE(s: seq<byte>): (v: nat)
    ensures v < Pow256(|s|)
  {
    if s == [] then 0 else s[0] as nat + 256 * FromLE(s[1..])
  }

  /** The n bytes of `v`, least significant first. */
  function ToLE(v: nat, n: nat): (s: seq<byte>)
    requires v < Pow256(n)
    ensures |s| == n
  {
    if n == 0 then [] else [(v % 256) as byte] + ToLE(v / 256, n - 1)
  }

  lemma {:induction false} FromLEToLE(v: nat, n: nat)
    requires v < Pow256(n)
    ensures FromLE(ToLE(v, n)) == v
  {
    if n > 0 {
      FromLEToLE(v / 256, n - 1);
      assert ToLE(v, n)[1..] == ToLE(v / 256, n - 1);
    }
  }

  lemma {:induction false} ToLEFromLE(s: seq<byte>)
    ensures ToLE(FromLE(s), |s|) == s
  {
    if s != [] {
      var v := FromLE(s);
      assert v % 256 == s[0] as nat && v / 256 == FromLE(s[1..]);
      ToLEFromLE(s[1..]);
    }
  }

  function Reverse(s: seq<byte>): (r: seq<byte>)
    ensures |r| == |s|
  {
    if s == [] then [] else Reverse(s[1..]) + [s[0]]
  }

  lemma {:induction false} ReverseAt(s: seq<byte>)
    ensures forall i :: 0 <= i < |s| ==> Reverse(s)[i] == s[|s| - 1 - i]
  {
    if s != [] {
      ReverseAt(s[1..]);
    }
  }

  lemma ReverseReverse(s: seq<byte>)
    ensures Reverse(Reverse(s)) == s
  {
    ReverseAt(s);
    ReverseAt(Reverse(s));
  }

  /** The value stored in `s` when the machine reads integers in the given byte order. */
  function Unpack(s: seq<byte>, little: bool): (v: nat)
    ensures v < Pow256(|s|)
  {
    if little then FromLE(s) else FromLE(Reverse(s))
  }

  /** The n bytes a machine with the given byte order stores for `v`. */
  function Pack(v: nat, n: nat, little: bool): (s: seq<byte>)
    requires v < Pow256(n)
    ensures |s| == n
  {
    if little then ToLE(v, n) else Reverse(ToLE(v, n))
  }

  /** Storing a value and reading it back with the same byte order gives the value. */
  lemma UnpackPack(v: nat, n: nat, little: bool)
    requires v < Pow256(n)
    ensures Unpack(Pack(v, n, little), little) == v
  {
    FromLEToLE(v, n);
    if !little {
      ReverseReverse(ToLE(v, n));
    }
  }

  /** Reading bytes and storing the value again with the same byte order gives the bytes. */
  lemma PackUnpack(s: seq<byte>, little: bool)
    ensures Pack(Unpack(s, little), |s|, little) == s
  {
    if little {
      ToLEFromLE(s);
    } else {
      ToLEFromLE(Reverse(s));
      ReverseReverse(s);
    }
  }

  // Readers for the field widths of the header structs.

  function ReadU16(b: seq<byte>, off: nat, little: bool): (v: u16)
    requires off + 2 <= |b|
  {
    Pow256Values();
    Unpack(b[off..off + 2], little) as u16
  }

  function ReadU32(b: seq<byte>, off: nat, little: bool): (v: u32)
    requires off + 4 <= |b|
  {
    Pow256Values();
    Unpack(b[off..off + 4], little) as u32
  }

  function ReadU64(b: seq<byte>, off: nat, little: bool): (v: u64)
    requires off + 8 <= |b|
  {
    Pow256Values();
    Unpack(b[off..off + 8], little) as u64
  }

  function PackU16(v: u16, little: bool): (s: seq<byte>)
    ensures |s| == 2
  {
    Pow256Values();
    Pack(v as nat, 2, little)
  }

  function PackU32(v: u32, little: bool): (s: seq<byte>)
    ensures |s| == 4
  {
    Pow256Values();
    Pack(v as nat, 4, little)
  }

  function PackU64(v: u64, little: bool): (s: seq<byte>)
    ensures |s| == 8
  {
    Pow256Values();
    Pack(v as nat, 8, little)
  }

  /** A reader given the bytes a packer wrote at its offset reads back the packed value. */
  lemma ReadPackedU16(b: seq<byte>, off: nat, v: u16, little: bool)
    requires off + 2 <= |b| && b[off..off + 2] == PackU16(v, little)
    ensures ReadU16(b, off, little) == v
  {
    Pow256Values();
    UnpackPack(v as nat, 2, little);
  }

  lemma ReadPackedU32(b: seq<byte>, off: nat, v: u32, little: bool)
    requires off + 4 <= |b| && b[off..off + 4] == PackU32(v, little)
    ensures ReadU32(b, off, little) == v
  {
    Pow256Values();
    UnpackPack(v as nat, 4, little);
  }

  lemma ReadPackedU64(b: seq<byte>, off: nat, v: u64, little: bool)
    requires off + 8 <= |b| && b[off..off + 8] == PackU64(v, little)
    ensures ReadU64(b, off, little) == v
  {
    Pow256Values();
    UnpackPack(v as nat, 8, little);
  }

  /** Packing what a reader read at an offset gives back the bytes at that offset. */
  lemma PackReadU16(b: seq<byte>, off: nat, little: bool)
    requires off + 2 <= |b|
    ensures PackU16(ReadU16(b, off, little), little) == b[off..off + 2]
  {
    Pow256Values();
    PackUnpack(b[off..off + 2], little);
  }

  lemma PackReadU32(b: seq<byte>, off: nat, little: bool)
    requires off + 4 <= |b|
    ensures PackU32(ReadU32(b, off, little), little) == b[off..off + 4]
  {
    Pow256Values();
    PackUnpack(b[off..off + 4], little);
  }

  lemma PackReadU64(b: seq<byte>, off: nat, little: bool)
    requires off + 8 <= |b|
    ensures PackU64(ReadU64(b, off, little), little) == b[off..off + 8]
  {
    Pow256Values();
    PackUnpack(b[off..off + 8], little);
  }

  lemma SliceOfSlice(b: seq<byte>, i: nat, j: nat, k: nat, l: nat)
    requires i <= j <= |b| && k <= l <= j - i
    ensures b[i..j][k..l] == b[i + k..i + l]
  {
    forall m | 0 <= m < l - k
      ensures b[i..j][k..l][m] == b[i + k..i + l][m]
    {
    }
  }

  /** Where each part of a concatenation sits. */
  lemma ConcatParts(x0: seq<byte>, x1: seq<byte>, x2: seq<byte>, x3: seq<byte>, rest: seq<byte>)
    ensures var b := x0 + x1 + x2 + x3 + rest;
      var n1, n2, n3 := |x0| + |x1|, |x0| + |x1| + |x2|, |x0| + |x1| + |x2| + |x3|;
      && b[..|x0|] == x0 && b[|x0|..n1] == x1 && b[n1..n2] == x2 && b[n2..n3] == x3
  {
  }
}
