/** The byte images the converter's `fwrite` and `fread` calls move between
    memory and the `.mesh` file (tools/model_converter/src/main.cpp, lines
    342-526): fixed-width unsigned integers in the machine's byte order, the
    element structs as the concatenation of their 32-bit fields, and blocks
    of elements laid end to end. Floats travel as their 32-bit patterns. */
module ByteCodec {
  import opened Base
  import opened MeshTypes

  /** The native byte order of the machine that writes and reads the file. */
  datatype ByteOrder = LittleEndian | BigEndian

  function Pow256(n: nat): (r: nat)
    ensures r >= 1
  {
    if n == 0 then 1 else 256 * Pow256(n - 1)
  }

  lemma Pow256Widths()
    ensures Pow256(4) == 0x1_0000_0000 && Pow256(8) == 0x1_0000_0000_0000_0000
  {
    assert Pow256(2) == 0x1_0000;
    assert Pow256(4) == 0x1_0000_0000;
    assert Pow256(6) == 0x1_0000_0000_0000;
  }

  /** `x` as `n` bytes, least significant byte first. */
  function LittleEndianBytes(x: nat, n: nat): (bs: seq<Byte>)
    requires x < Pow256(n)
    ensures |bs| == n
  {
    if n == 0 then [] else [x % 256] + LittleEndianBytes(x / 256, n - 1)
  }

  /** The value of bytes read least significant byte first. */
  function LittleEndianValue(bs: seq<Byte>): (x: nat)
    ensures x < Pow256(|bs|)
  {
    if bs == [] then 0 else bs[0] + 256 * LittleEndianValue(bs[1..])
  }

  lemma {:induction false} LittleEndianRoundTrip(x: nat, n: nat)
    requires x < Pow256(n)
    ensures LittleEndianValue(LittleEndianBytes(x, n)) == x
  {
    if n > 0 {
      LittleEndianRoundTrip(x / 256, n - 1);
      assert LittleEndianBytes(x, n)[1..] == LittleEndianBytes(x / 256, n - 1);
    }
  }

  function Reverse<T>(s: seq<T>): (r: seq<T>)
    ensures |r| == |s| && forall i :: 0 <= i < |s| ==> r[i] == s[|s| - 1 - i]
  {
    seq(|s|, i requires 0 <= i < |s| => s[|s| - 1 - i])
  }

  /** The bytes of an `n`-byte unsigned integer as it lies in memory. */
  function EncodeUInt(x: nat, n: nat, order: ByteOrder): (bs: seq<Byte>)
    requires x < Pow256(n)
    ensures |bs| == n
  {
    match order
    case LittleEndian => LittleEndianBytes(x, n)
    case BigEndian => Reverse(LittleEndianBytes(x, n))
  }

  /** The unsigned integer whose memory image is `bs`. */
  function DecodeUInt(bs: seq<Byte>, order: ByteOrder): (x: nat)
    ensures x < Pow256(|bs|)
  {
    match order
    case LittleEndian => LittleEndianValue(bs)
    case BigEndian => LittleEndianValue(Reverse(bs))
  }

  /** An integer read back from its image is the integer written, in either
      byte order. */
  lemma DecodeEncodeUInt(x: nat, n: nat, order: ByteOrder)
    requires x < Pow256(n)
    ensures DecodeUInt(EncodeUInt(x, n, order), order) == x
  {
    LittleEndianRoundTrip(x, n);
    if order == BigEndian {
      var bs := LittleEndianBytes(x, n);
      assert Reverse(Reverse(bs)) == bs;
    }
  }

  function U32Bytes(x: U32, order: ByteOrder): (bs: seq<Byte>)
    ensures |bs| == 4
  {
    Pow256Widths();
    EncodeUInt(x, 4, order)
  }

  function U32Value(bs: seq<Byte>, order: ByteOrder): U32
    requires |bs| == 4
  {
    Pow256Widths();
    DecodeUInt(bs, order)
  }

  /** `size_t`, the type of every count in the file. */
  function U64Bytes(x: U64, order: ByteOrder): (bs: seq<Byte>)
    ensures |bs| == 8
  {
    Pow256Widths();
    EncodeUInt(x, 8, order)
  }

  function U64Value(bs: seq<Byte>, order: ByteOrder): U64
    requires |bs| == 8
  {
    Pow256Widths();
    DecodeUInt(bs, order)
  }

  lemma U32RoundTrip(x: U32, order: ByteOrder)
    ensures U32Value(U32Bytes(x, order), order) == x
  {
    Pow256Widths();
    DecodeEncodeUInt(x, 4, order);
  }

  lemma U64RoundTrip(x: U64, order: ByteOrder)
    ensures U64Value(U64Bytes(x, order), order) == x
  {
    Pow256Widths();
    DecodeEncodeUInt(x, 8, order);
  }

  // ---------------------------------------------------------------------
  // Elements. Every struct the file holds is a run of 32-bit fields in
  // declaration order, with no padding between them.

  type Float3Bits = Vec3<U32>
  type Float2Bits = Vec2<U32>
  type BoundsBits = Bounds<U32>

  /** An element type's memory image: `size` bytes per element, read back
      by `decode`. */
  ghost predicate Codec<E(!new)>(encode: E -> seq<Byte>, decode: seq<Byte> --> E, size: nat)
  {
    && (forall bs: seq<Byte> :: |bs| == size ==> decode.requires(bs))
    && (forall e :: |encode(e)| == size && decode(encode(e)) == e)
  }

  function U32Encoder(order: ByteOrder): U32 -> seq<Byte>
  {
    (x: U32) => U32Bytes(x, order)
  }

  function U32Decoder(order: ByteOrder): seq<Byte> --> U32
  {
    bs requires |bs| == 4 => U32Value(bs, order)
  }

  function Float3Bytes(v: Float3Bits, order: ByteOrder): (bs: seq<Byte>)
    ensures |bs| == 12
  {
    U32Bytes(v.x, order) + U32Bytes(v.y, order) + U32Bytes(v.z, order)
  }

  function Float3Value(bs: seq<Byte>, order: ByteOrder): Float3Bits
    requires |bs| == 12
  {
    Vec3(U32Value(bs[..4], order), U32Value(bs[4..8], order), U32Value(bs[8..], order))
  }

  function Float3Encoder(order: ByteOrder): Float3Bits -> seq<Byte>
  {
    (v: Float3Bits) => Float3Bytes(v, order)
  }

  function Float3Decoder(order: ByteOrder): seq<Byte> --> Float3Bits
  {
    bs requires |bs| == 12 => Float3Value(bs, order)
  }

  function Float2Encoder(order: ByteOrder): Float2Bits -> seq<Byte>
  {
    (v: Float2Bits) => U32Bytes(v.x, order) + U32Bytes(v.y, order)
  }

  function Float2Decoder(order: ByteOrder): seq<Byte> --> Float2Bits
  {
    bs requires |bs| == 8 => Vec2(U32Value(bs[..4], order), U32Value(bs[4..], order))
  }

  /** `meshlet_t`: vertex offset, triangle offset, vertex count, triangle
      count. */
  function MeshletEncoder(order: ByteOrder): Meshlet -> seq<Byte>
  {
    (m: Meshlet) => U32Bytes(m.vertexOffset, order) + U32Bytes(m.triangleOffset, order)
                    + U32Bytes(m.vertexCount, order) + U32Bytes(m.triangleCount, order)
  }

  function MeshletDecoder(order: ByteOrder): seq<Byte> --> Meshlet
  {
    bs requires |bs| == 16 =>
      Meshlet(U32Value(bs[..4], order), U32Value(bs[4..8], order), U32Value(bs[8..12], order), U32Value(bs[12..], order))
  }

  /** `meshlet_bounds_t`: centre, then extents. */
  function BoundsEncoder(order: ByteOrder): BoundsBits -> seq<Byte>
  {
    (b: BoundsBits) => Float3Bytes(b.localCenter, order) + Float3Bytes(b.localExtents, order)
  }

  function BoundsDecoder(order: ByteOrder): seq<Byte> --> BoundsBits
  {
    bs requires |bs| == 24 => Bounds(Float3Value(bs[..12], order), Float3Value(bs[12..], order))
  }

  /** `meshlet_triangle_t`: the one 32-bit word holding the bit-fields. */
  function TriangleEncoder(order: ByteOrder): PackedTriangle -> seq<Byte>
  {
    (t: PackedTriangle) => U32Bytes(Word(t), order)
  }

  function TriangleDecoder(order: ByteOrder): seq<Byte> --> PackedTriangle
  {
    bs requires |bs| == 4 => FromWord(U32Value(bs, order))
  }

  lemma Float3RoundTrip(v: Float3Bits, order: ByteOrder)
    ensures Float3Value(Float3Bytes(v, order), order) == v
  {
    var bs := Float3Bytes(v, order);
    assert bs[..4] == U32Bytes(v.x, order) && bs[4..8] == U32Bytes(v.y, order) && bs[8..] == U32Bytes(v.z, order);
    U32RoundTrip(v.x, order);
    U32RoundTrip(v.y, order);
    U32RoundTrip(v.z, order);
  }

  lemma U32Codec(order: ByteOrder)
    ensures Codec(U32Encoder(order), U32Decoder(order), 4)
  {
    forall x: U32 ensures U32Decoder(order)(U32Encoder(order)(x)) == x {
      U32RoundTrip(x, order);
    }
  }

  lemma Float3Codec(order: ByteOrder)
    ensures Codec(Float3Encoder(order), Float3Decoder(order), 12)
  {
    forall v: Float3Bits ensures Float3Decoder(order)(Float3Encoder(order)(v)) == v {
      Float3RoundTrip(v, order);
    }
  }

  lemma Float2Codec(order: ByteOrder)
    ensures Codec(Float2Encoder(order), Float2Decoder(order), 8)
  {
    forall v: Float2Bits ensures Float2Decoder(order)(Float2Encoder(order)(v)) == v {
      var bs := Float2Encoder(order)(v);
      assert bs[..4] == U32Bytes(v.x, order) && bs[4..] == U32Bytes(v.y, order);
      U32RoundTrip(v.x, order);
      U32RoundTrip(v.y, order);
    }
  }

  lemma MeshletCodec(order: ByteOrder)
    ensures Codec(MeshletEncoder(order), MeshletDecoder(order), 16)
  {
    forall m: Meshlet ensures MeshletDecoder(order)(MeshletEncoder(order)(m)) == m {
      var bs := MeshletEncoder(order)(m);
      assert bs[..4] == U32Bytes(m.vertexOffset, order) && bs[4..8] == U32Bytes(m.triangleOffset, order);
      assert bs[8..12] == U32Bytes(m.vertexCount, order) && bs[12..] == U32Bytes(m.triangleCount, order);
      U32RoundTrip(m.vertexOffset, order);
      U32RoundTrip(m.triangleOffset, order);
      U32RoundTrip(m.vertexCount, order);
      U32RoundTrip(m.triangleCount, order);
    }
  }

  lemma BoundsCodec(order: ByteOrder)
    ensures Codec(BoundsEncoder(order), BoundsDecoder(order), 24)
  {
    forall b: BoundsBits ensures BoundsDecoder(order)(BoundsEncoder(order)(b)) == b {
      var bs := BoundsEncoder(order)(b);
      assert bs[..12] == Float3Bytes(b.localCenter, order) && bs[12..] == Float3Bytes(b.localExtents, order);
      Float3RoundTrip(b.localCenter, order);
      Float3RoundTrip(b.localExtents, order);
    }
  }

  /** A packed triangle read back is the one written, padding bits included. */
  lemma TriangleCodec(order: ByteOrder)
    ensures Codec(TriangleEncoder(order), TriangleDecoder(order), 4)
  {
    forall t: PackedTriangle ensures TriangleDecoder(order)(TriangleEncoder(order)(t)) == t {
      U32RoundTrip(Word(t), order);
      FromWordOfWord(t);
    }
  }
}
