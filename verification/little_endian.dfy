/**
 * Bytes and unsigned little-endian integers, the field encoding of the
 * PSP directory header and entry records (the `Int32ul` and `Int64ul`
 * fields of the layouts).
 */
module LittleEndian {

  type byte = x: int | 0 <= x < 256
  type u32 = x: int | 0 <= x < 0x1_0000_0000
  type u64 = x: int | 0 <= x < 0x1_0000_0000_0000_0000

  /** 256 to the power n: the number of values an n-byte field can hold. */
  function Pow256(n: nat): (r: nat)
    ensures r > 0
  {
    if n == 0 then 1 else 256 * Pow256(n - 1)
  }

  /** The unsigned value of `s`, least significant byte first. */
  function Decode(s: seq<byte>): (v: nat)
    ensures v < Pow256(|s|)
  {
    if s == [] then 0 else s[0] + 256 * Decode(s[1..])
  }

  /** The `width` bytes that store `v`, least significant byte first. */
  function Encode(v: nat, width: nat): (s: seq<byte>)
    requires v < Pow256(width)
    ensures |s| == width
  {
    if width == 0 then [] else [v % 256] + Encode(v / 256, width - 1)
  }

  /** Decoding the encoding of a value gives the value back. */
  lemma {:induction false} DecodeEncode(v: nat, width: nat)
    requires v < Pow256(width)
    ensures Decode(Encode(v, width)) == v
  {
    if width > 0 {
      var s := Encode(v, width);
      assert s[1..] == Encode(v / 256, width - 1);
      DecodeEncode(v / 256, width - 1);
    }
  }

  /** Encoding a decoded byte string at its own width gives the bytes back. */
  lemma {:induction false} EncodeDecode(s: seq<byte>)
    ensures Encode(Decode(s), |s|) == s
  {
    if s != [] {
      var v := Decode(s);
      assert v % 256 == s[0] && v / 256 == Decode(s[1..]);
      EncodeDecode(s[1..]);
    }
  }

  /** The bytes at `p .. p+width` decode to `v` exactly when they are `v`'s encoding. */
  lemma DecodeAtIff(data: seq<byte>, p: nat, width: nat, v: nat)
    requires p + width <= |data| && v < Pow256(width)
    ensures Decode(data[p..p + width]) == v <==> data[p..p + width] == Encode(v, width)
  {
    EncodeDecode(data[p..p + width]);
    DecodeEncode(v, width);
  }

  /** The u32 stored little-endian at offset `p`. */
  function U32At(data: seq<byte>, p: nat): (v: u32)
    requires p + 4 <= |data|
    ensures data[p..p + 4] == Encode(v, 4)
  {
    EncodeDecode(data[p..p + 4]);
    assert Pow256(4) == 0x1_0000_0000;
    Decode(data[p..p + 4])
  }

  /** The u64 stored little-endian at offset `p`. */
  function U64At(data: seq<byte>, p: nat): (v: u64)
    requires p + 8 <= |data|
    ensures data[p..p + 8] == Encode(v, 8)
  {
    EncodeDecode(data[p..p + 8]);
    assert Pow256(8) == 0x1_0000_0000_0000_0000;
    Decode(data[p..p + 8])
  }
}
