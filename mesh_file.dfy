/** The `.mesh` file of tools/model_converter/src/main.cpp: the writer of
    lines 342-386 and the read-back check of lines 388-526. The file is the
    9-byte magic `TidesMesh`, the `size_t` mesh count, and per mesh eight
    `size_t` counts followed by eight blocks in the same order: indices,
    positions, normals, texture coordinates, meshlets, meshlet bounds, packed
    triangles and meshlet vertices. The file itself is a byte sequence. */
module MeshFile {
  import opened Base
  import opened MeshTypes
  import opened ByteCodec

  /** `MESH_MAGIC`: the letters of `TidesMesh`, without a terminator. */
  const Magic: seq<Byte> := [0x54, 0x69, 0x64, 0x65, 0x73, 0x4D, 0x65, 0x73, 0x68]

  /** The converted meshes as the file holds them: floats as bit patterns. */
  type MeshBits = MeshData<U32>

  // ---------------------------------------------------------------------
  // The `operator==` overloads the read-back check compares elements with.

  /** A single-precision NaN: all exponent bits set and a non-zero fraction. */
  predicate IsNaN(f: U32)
  {
    (f / 0x80_0000) % 0x100 == 0xFF && f % 0x80_0000 != 0
  }

  /** IEEE `==` on single-precision bit patterns: a NaN equals nothing, not
      even itself, and `+0 == -0`. */
  predicate F32Eq(a: U32, b: U32)
  {
    !IsNaN(a) && !IsNaN(b) && (a == b || (a % 0x8000_0000 == 0 && b % 0x8000_0000 == 0))
  }

  /** A float equals itself exactly when it is not a NaN. */
  lemma Float3EqSelf(v: Float3Bits)
    ensures Float3Eq(v, v) <==> Float3NaNFree(v)
  {
  }

  lemma Float2EqSelf(v: Float2Bits)
    ensures Float2Eq(v, v) <==> Float2NaNFree(v)
  {
  }

  predicate U32Eq(a: U32, b: U32)
  {
    a == b
  }

  /** `operator==(float3_t, float3_t)`. */
  predicate Float3Eq(a: Float3Bits, b: Float3Bits)
  {
    F32Eq(a.x, b.x) && F32Eq(a.y, b.y) && F32Eq(a.z, b.z)
  }

  /** `operator==(float2_t, float2_t)`. */
  predicate Float2Eq(a: Float2Bits, b: Float2Bits)
  {
    F32Eq(a.x, b.x) && F32Eq(a.y, b.y)
  }

  /** `operator==(meshlet_t, meshlet_t)`. */
  predicate MeshletEq(a: Meshlet, b: Meshlet)
  {
    && a.vertexOffset == b.vertexOffset && a.triangleOffset == b.triangleOffset
    && a.vertexCount == b.vertexCount && a.triangleCount == b.triangleCount
  }

  /** `operator==(meshlet_bounds_t, meshlet_bounds_t)`. */
  predicate BoundsEq(a: BoundsBits, b: BoundsBits)
  {
    Float3Eq(a.localCenter, b.localCenter) && Float3Eq(a.localExtents, b.localExtents)
  }

  predicate Float3NaNFree(v: Float3Bits)
  {
    !IsNaN(v.x) && !IsNaN(v.y) && !IsNaN(v.z)
  }

  predicate Float2NaNFree(v: Float2Bits)
  {
    !IsNaN(v.x) && !IsNaN(v.y)
  }

  /** No float of the vertex streams is a NaN. */
  predicate StreamsNaNFree(m: MeshBits)
  {
    && (forall i :: 0 <= i < |m.positions| ==> Float3NaNFree(m.positions[i]))
    && (forall i :: 0 <= i < |m.normals| ==> Float3NaNFree(m.normals[i]))
    && (forall i :: 0 <= i < |m.texcoords| ==> Float2NaNFree(m.texcoords[i]))
  }

  /** No float of the meshlet bounds is a NaN. */
  predicate BoundsNaNFree(m: MeshBits)
  {
    forall i :: 0 <= i < |m.bounds| ==> Float3NaNFree(m.bounds[i].localCenter) && Float3NaNFree(m.bounds[i].localExtents)
  }

  /** No float of the mesh is a NaN. */
  predicate MeshNaNFree(m: MeshBits)
  {
    StreamsNaNFree(m) && BoundsNaNFree(m)
  }

  // ---------------------------------------------------------------------
  // Blocks: `count` elements written by one `fwrite` of `size * count` bytes.

  ghost predicate Decodes<E>(decode: seq<Byte> --> E, size: nat)
  {
    forall bs: seq<Byte> :: |bs| == size ==> decode.requires(bs)
  }

  function EncodeBlock<E>(es: seq<E>, encode: E -> seq<Byte>): seq<Byte>
  {
    if es == [] then [] else encode(es[0]) + EncodeBlock(es[1..], encode)
  }

  /** `n` elements of `size` bytes from the front of `r`, and what follows
      them; `None` when `r` is too short. */
  function DecodeBlock<E>(r: seq<Byte>, n: nat, size: nat, decode: seq<Byte> --> E): (res: Option<(seq<E>, seq<Byte>)>)
    requires Decodes(decode, size)
    ensures res.Some? ==> |res.value.0| == n
    decreases n
  {
    if n == 0 then Some(([], r))
    else if |r| < size then None
    else
      match DecodeBlock(r[size..], n - 1, size, decode)
      case None => None
      case Some((es, rest)) => Some(([decode(r[..size])] + es, rest))
  }

  /** `r` starts with the block `es` and continues with `rest`. */
  predicate Reads<E(==)>(r: seq<Byte>, es: seq<E>, size: nat, decode: seq<Byte> --> E, rest: seq<Byte>)
    requires Decodes(decode, size)
  {
    DecodeBlock(r, |es|, size, decode) == Some((es, rest))
  }

  /** Equal lengths and pairwise `eq`. */
  predicate SeqEq<E>(a: seq<E>, b: seq<E>, eq: (E, E) -> bool)
  {
    |a| == |b| && forall i :: 0 <= i < |a| ==> eq(a[i], b[i])
  }

  /** The read-back of one block: the block read from the front of `r` with
      the in-memory count matches the in-memory elements under `eq`; on
      success, the bytes that follow it. */
  function MatchBlock<E>(r: seq<Byte>, es: seq<E>, size: nat, decode: seq<Byte> --> E, eq: (E, E) -> bool): Option<seq<Byte>>
    requires Decodes(decode, size)
  {
    match DecodeBlock(r, |es|, size, decode)
    case None => None
    case Some((ds, rest)) => if SeqEq(ds, es, eq) then Some(rest) else None
  }

  lemma {:induction false} DecodeEncodeBlock<E(!new)>(es: seq<E>, r: seq<Byte>, encode: E -> seq<Byte>, decode: seq<Byte> --> E, size: nat)
    requires Codec(encode, decode, size)
    ensures DecodeBlock(EncodeBlock(es, encode) + r, |es|, size, decode) == Some((es, r))
    decreases |es|
  {
    if es != [] {
      var tail := EncodeBlock(es[1..], encode) + r;
      var bytes := EncodeBlock(es, encode) + r;
      assert bytes == encode(es[0]) + tail;
      assert bytes[..size] == encode(es[0]) && bytes[size..] == tail;
      assert |encode(es[0])| == size && decode(encode(es[0])) == es[0];
      DecodeEncodeBlock(es[1..], r, encode, decode, size);
      assert DecodeBlock(bytes[size..], |es| - 1, size, decode) == Some((es[1..], r));
      assert decode(bytes[..size]) == es[0];
      assert [es[0]] + es[1..] == es;
      assert DecodeBlock(bytes, |es|, size, decode) == Some(([decode(bytes[..size])] + es[1..], r));
    } else {
      assert EncodeBlock(es, encode) + r == r;
    }
  }

  /** The element loop reads one element at a time. */
  lemma MatchBlockStep<E>(r: seq<Byte>, es: seq<E>, size: nat, decode: seq<Byte> --> E, eq: (E, E) -> bool)
    requires Decodes(decode, size) && es != []
    ensures MatchBlock(r, es, size, decode, eq) ==
      if |r| < size || !eq(decode(r[..size]), es[0]) then None else MatchBlock(r[size..], es[1..], size, decode, eq)
  {
    if |r| >= size {
      match DecodeBlock(r[size..], |es| - 1, size, decode)
      case None =>
      case Some((ds, rest)) =>
        var all := [decode(r[..size])] + ds;
        if SeqEq(ds, es[1..], eq) && eq(decode(r[..size]), es[0]) {
          forall i | 0 <= i < |es| ensures eq(all[i], es[i]) {
            if i > 0 { assert all[i] == ds[i - 1] && es[i] == es[1..][i - 1]; }
          }
        }
        if SeqEq(all, es, eq) {
          forall i | 0 <= i < |ds| ensures eq(ds[i], es[1..][i]) {
            assert all[i + 1] == ds[i];
          }
        }
    }
  }

  /** A written block reads back past its bytes exactly when every element
      equals itself. */
  lemma MatchEncodedBlock<E(!new)>(es: seq<E>, r: seq<Byte>, encode: E -> seq<Byte>, decode: seq<Byte> --> E, size: nat,
                                   eq: (E, E) -> bool)
    requires Codec(encode, decode, size)
    ensures MatchBlock(EncodeBlock(es, encode) + r, es, size, decode, eq) ==
      if forall i :: 0 <= i < |es| ==> eq(es[i], es[i]) then Some(r) else None
  {
    DecodeEncodeBlock(es, r, encode, decode, size);
  }

  /** The element loop of one block of the read-back: the block is read and
      each element compared with the in-memory one. A short read fails. */
  method CheckBlock<E>(file: seq<Byte>, pos: nat, es: seq<E>, size: nat, decode: seq<Byte> --> E, eq: (E, E) -> bool)
    returns (ok: bool, next: nat)
    requires pos <= |file| && Decodes(decode, size)
    ensures ok == MatchBlock(file[pos..], es, size, decode, eq).Some?
    ensures ok ==> pos <= next <= |file| && file[next..] == MatchBlock(file[pos..], es, size, decode, eq).value
  {
    var p: nat, k := pos, 0;
    while k < |es|
      invariant pos <= p <= |file| && k <= |es|
      invariant MatchBlock(file[pos..], es, size, decode, eq) == MatchBlock(file[p..], es[k..], size, decode, eq)
    {
      MatchBlockStep(file[p..], es[k..], size, decode, eq);
      if |file| - p < size {
        return false, p;
      }
      assert file[p..][..size] == file[p..p + size] && file[p..][size..] == file[p + size..];
      if !eq(decode(file[p..p + size]), es[k]) {
        return false, p;
      }
      assert es[k..][1..] == es[k + 1..];
      p, k := p + size, k + 1;
    }
    return true, p;
  }

  // ---------------------------------------------------------------------
  // One mesh: eight `size_t` counts, then the eight blocks.

  const CountsSize: nat := 64
  const SizeLimit: int := 0x1_0000_0000_0000_0000

  /** The eight counts, in the order the file holds them. */
  function Counts(m: MeshBits): seq<nat>
  {
    [|m.indices|, |m.positions|, |m.normals|, |m.texcoords|,
     |m.meshlets|, |m.bounds|, |m.triangles|, |m.meshletVertices|]
  }

  /** Every count of the mesh fits the `size_t` it is written as. */
  predicate MeshEncodable(m: MeshBits)
  {
    && |m.indices| < SizeLimit && |m.positions| < SizeLimit && |m.normals| < SizeLimit
    && |m.texcoords| < SizeLimit && |m.meshlets| < SizeLimit && |m.bounds| < SizeLimit
    && |m.triangles| < SizeLimit && |m.meshletVertices| < SizeLimit
  }

  /** Sizes written one after the other as `size_t`s. */
  function EncodeSizes(cs: seq<nat>, order: ByteOrder): (bs: seq<Byte>)
    requires forall j :: 0 <= j < |cs| ==> cs[j] < SizeLimit
    ensures |bs| == 8 * |cs|
  {
    if cs == [] then [] else U64Bytes(cs[0], order) + EncodeSizes(cs[1..], order)
  }

  function EncodeCounts(m: MeshBits, order: ByteOrder): (bs: seq<Byte>)
    requires MeshEncodable(m)
    ensures |bs| == CountsSize
  {
    assert forall j :: 0 <= j < 8 ==> Counts(m)[j] < SizeLimit;
    EncodeSizes(Counts(m), order)
  }

  /** The eight blocks, each the memory image of its buffer. */
  function EncodeBlocks(m: MeshBits, order: ByteOrder): seq<Byte>
  {
    EncodeBlock(m.indices, U32Encoder(order))
    + EncodeBlock(m.positions, Float3Encoder(order))
    + EncodeBlock(m.normals, Float3Encoder(order))
    + EncodeBlock(m.texcoords, Float2Encoder(order))
    + EncodeBlock(m.meshlets, MeshletEncoder(order))
    + EncodeBlock(m.bounds, BoundsEncoder(order))
    + EncodeBlock(m.triangles, TriangleEncoder(order))
    + EncodeBlock(m.meshletVertices, U32Encoder(order))
  }

  /** What the writer puts in the file for one mesh. */
  function EncodeMesh(m: MeshBits, order: ByteOrder): seq<Byte>
    requires MeshEncodable(m)
  {
    EncodeCounts(m, order) + EncodeBlocks(m, order)
  }

  /** The `j`-th count at the front of `r`. */
  function CountAt(r: seq<Byte>, j: nat, order: ByteOrder): U64
    requires j < 8 && |r| >= CountsSize
  {
    U64Value(r[8 * j..8 * j + 8], order)
  }

  lemma Codecs(order: ByteOrder)
    ensures Codec(U32Encoder(order), U32Decoder(order), 4)
    ensures Codec(Float3Encoder(order), Float3Decoder(order), 12)
    ensures Codec(Float2Encoder(order), Float2Decoder(order), 8)
    ensures Codec(MeshletEncoder(order), MeshletDecoder(order), 16)
    ensures Codec(BoundsEncoder(order), BoundsDecoder(order), 24)
    ensures Codec(TriangleEncoder(order), TriangleDecoder(order), 4)
  {
    U32Codec(order);
    Float3Codec(order);
    Float2Codec(order);
    MeshletCodec(order);
    BoundsCodec(order);
    TriangleCodec(order);
  }

  lemma Decoders(order: ByteOrder)
    ensures Decodes(U32Decoder(order), 4) && Decodes(Float3Decoder(order), 12) && Decodes(Float2Decoder(order), 8)
    ensures Decodes(MeshletDecoder(order), 16) && Decodes(BoundsDecoder(order), 24) && Decodes(TriangleDecoder(order), 4)
  {
  }

  /** The four vertex-stream blocks of a mesh whose counts start `r`; the
      meshlet buffers are left empty. */
  function DecodeStreams(r: seq<Byte>, order: ByteOrder): Option<(MeshBits, seq<Byte>)>
    requires |r| >= CountsSize
  {
    Decoders(order);
    var indices :- DecodeBlock(r[CountsSize..], CountAt(r, 0, order), 4, U32Decoder(order));
    var positions :- DecodeBlock(indices.1, CountAt(r, 1, order), 12, Float3Decoder(order));
    var normals :- DecodeBlock(positions.1, CountAt(r, 2, order), 12, Float3Decoder(order));
    var texcoords :- DecodeBlock(normals.1, CountAt(r, 3, order), 8, Float2Decoder(order));
    Some((MeshData(indices.0, positions.0, normals.0, texcoords.0, [], [], [], []), texcoords.1))
  }

  /** The four meshlet blocks that follow the streams, at `rest`. */
  function DecodeClusters(r: seq<Byte>, rest: seq<Byte>, streams: MeshBits, order: ByteOrder): Option<(MeshBits, seq<Byte>)>
    requires |r| >= CountsSize
  {
    Decoders(order);
    var meshlets :- DecodeBlock(rest, CountAt(r, 4, order), 16, MeshletDecoder(order));
    var bounds :- DecodeBlock(meshlets.1, CountAt(r, 5, order), 24, BoundsDecoder(order));
    var triangles :- DecodeBlock(bounds.1, CountAt(r, 6, order), 4, TriangleDecoder(order));
    var vertices :- DecodeBlock(triangles.1, CountAt(r, 7, order), 4, U32Decoder(order));
    Some((streams.(meshlets := meshlets.0, bounds := bounds.0, triangles := triangles.0, meshletVertices := vertices.0),
          vertices.1))
  }

  /** A mesh read from the front of `r` by its counts, and what follows it. */
  function DecodeMesh(r: seq<Byte>, order: ByteOrder): Option<(MeshBits, seq<Byte>)>
  {
    if |r| < CountsSize then None
    else
      var streams :- DecodeStreams(r, order);
      DecodeClusters(r, streams.1, streams.0, order)
  }

  /** The count check of one mesh: each count read equals the in-memory one. */
  predicate CountsMatch(r: seq<Byte>, m: MeshBits, order: ByteOrder)
  {
    |r| >= CountsSize && forall j :: 0 <= j < 8 ==> CountAt(r, j, order) == Counts(m)[j]
  }

  /** The checks of the four vertex-stream blocks, with the source's
      `operator==` for each element type. */
  function MatchStreams(r: seq<Byte>, m: MeshBits, order: ByteOrder): Option<seq<Byte>>
  {
    Decoders(order);
    var r0 :- MatchBlock(r, m.indices, 4, U32Decoder(order), U32Eq);
    var r1 :- MatchBlock(r0, m.positions, 12, Float3Decoder(order), Float3Eq);
    var r2 :- MatchBlock(r1, m.normals, 12, Float3Decoder(order), Float3Eq);
    MatchBlock(r2, m.texcoords, 8, Float2Decoder(order), Float2Eq)
  }

  /** The checks of the four meshlet blocks. */
  function MatchClusters(r: seq<Byte>, m: MeshBits, order: ByteOrder): Option<seq<Byte>>
  {
    Decoders(order);
    var r0 :- MatchBlock(r, m.meshlets, 16, MeshletDecoder(order), MeshletEq);
    var r1 :- MatchBlock(r0, m.bounds, 24, BoundsDecoder(order), BoundsEq);
    var r2 :- MatchBlock(r1, m.triangles, 4, TriangleDecoder(order), TriangleEq);
    MatchBlock(r2, m.meshletVertices, 4, U32Decoder(order), U32Eq)
  }

  /** The block checks of one mesh, in file order. */
  function MatchBlocks(r: seq<Byte>, m: MeshBits, order: ByteOrder): Option<seq<Byte>>
  {
    var rest :- MatchStreams(r, m, order);
    MatchClusters(rest, m, order)
  }

  /** The read-back of one mesh: its counts, then its blocks. */
  function MatchMesh(r: seq<Byte>, m: MeshBits, order: ByteOrder): Option<seq<Byte>>
  {
    if CountsMatch(r, m, order) then MatchBlocks(r[CountsSize..], m, order) else None
  }

  /** The `j`-th 8-byte word after one leading word is the `j - 1`-th of the rest. */
  lemma WordAfter(w: seq<Byte>, t: seq<Byte>, j: nat)
    requires |w| == 8 && 1 <= j && 8 * j + 8 <= |w| + |t|
    ensures (w + t)[8 * j..8 * j + 8] == t[8 * (j - 1)..8 * (j - 1) + 8]
  {
  }

  lemma {:induction false} SizesRoundTrip(cs: seq<nat>, r: seq<Byte>, j: nat, order: ByteOrder)
    requires forall k :: 0 <= k < |cs| ==> cs[k] < SizeLimit
    requires j < |cs|
    ensures (EncodeSizes(cs, order) + r)[8 * j..8 * j + 8] == U64Bytes(cs[j], order)
    decreases j
  {
    var w := U64Bytes(cs[0], order);
    var tail := EncodeSizes(cs[1..], order) + r;
    assert EncodeSizes(cs, order) + r == w + tail;
    if j == 0 {
      assert (w + tail)[0..8] == w;
    } else {
      SizesRoundTrip(cs[1..], r, j - 1, order);
      WordAfter(w, tail, j);
    }
  }

  /** The counts written are the counts read back. */
  lemma CountsRoundTrip(m: MeshBits, r: seq<Byte>, order: ByteOrder)
    requires MeshEncodable(m)
    ensures CountsMatch(EncodeCounts(m, order) + r, m, order)
    ensures (EncodeCounts(m, order) + r)[CountsSize..] == r
  {
    forall j | 0 <= j < 8 ensures CountAt(EncodeCounts(m, order) + r, j, order) == Counts(m)[j] {
      SizesRoundTrip(Counts(m), r, j, order);
      U64RoundTrip(Counts(m)[j], order);
    }
  }

  lemma Regroup(c: seq<Byte>, b0: seq<Byte>, b1: seq<Byte>, b2: seq<Byte>, b3: seq<Byte>, b4: seq<Byte>, b5: seq<Byte>,
                b6: seq<Byte>, b7: seq<Byte>, r: seq<Byte>)
    ensures c + (b0 + b1 + b2 + b3 + b4 + b5 + b6 + b7) + r == c + (b0 + (b1 + (b2 + (b3 + (b4 + (b5 + (b6 + (b7 + r))))))))
  {
  }

  /** The bytes of one mesh followed by `r`, grouped block by block from the back. */
  lemma MeshLayout(m: MeshBits, r: seq<Byte>, order: ByteOrder)
    requires MeshEncodable(m)
    ensures EncodeMesh(m, order) + r ==
      EncodeCounts(m, order) + (EncodeBlock(m.indices, U32Encoder(order)) + (EncodeBlock(m.positions, Float3Encoder(order))
      + (EncodeBlock(m.normals, Float3Encoder(order)) + (EncodeBlock(m.texcoords, Float2Encoder(order))
      + (EncodeBlock(m.meshlets, MeshletEncoder(order)) + (EncodeBlock(m.bounds, BoundsEncoder(order))
      + (EncodeBlock(m.triangles, TriangleEncoder(order)) + (EncodeBlock(m.meshletVertices, U32Encoder(order)) + r))))))))
  {
    Regroup(EncodeCounts(m, order), EncodeBlock(m.indices, U32Encoder(order)), EncodeBlock(m.positions, Float3Encoder(order)),
            EncodeBlock(m.normals, Float3Encoder(order)), EncodeBlock(m.texcoords, Float2Encoder(order)),
            EncodeBlock(m.meshlets, MeshletEncoder(order)), EncodeBlock(m.bounds, BoundsEncoder(order)),
            EncodeBlock(m.triangles, TriangleEncoder(order)), EncodeBlock(m.meshletVertices, U32Encoder(order)), r);
  }

  lemma U32Block(es: seq<U32>, r: seq<Byte>, order: ByteOrder)
    ensures Reads(EncodeBlock(es, U32Encoder(order)) + r, es, 4, U32Decoder(order), r)
    ensures MatchBlock(EncodeBlock(es, U32Encoder(order)) + r, es, 4, U32Decoder(order), U32Eq) ==
      Some(r)
  {
    U32Codec(order);
    DecodeEncodeBlock(es, r, U32Encoder(order), U32Decoder(order), 4);
  }

  lemma Float3Block(es: seq<Float3Bits>, r: seq<Byte>, order: ByteOrder)
    ensures Reads(EncodeBlock(es, Float3Encoder(order)) + r, es, 12, Float3Decoder(order), r)
    ensures MatchBlock(EncodeBlock(es, Float3Encoder(order)) + r, es, 12, Float3Decoder(order), Float3Eq) ==
      if forall i :: 0 <= i < |es| ==> Float3NaNFree(es[i]) then Some(r) else None
  {
    assert Reads(EncodeBlock(es, Float3Encoder(order)) + r, es, 12, Float3Decoder(order), r) by {
      Float3Codec(order);
      DecodeEncodeBlock(es, r, Float3Encoder(order), Float3Decoder(order), 12);
    }
    var eq: (Float3Bits, Float3Bits) -> bool := Float3Eq;
    assert MatchBlock(EncodeBlock(es, Float3Encoder(order)) + r, es, 12, Float3Decoder(order), eq) ==
      if forall i :: 0 <= i < |es| ==> eq(es[i], es[i]) then Some(r) else None by {
      Float3Codec(order);
      MatchEncodedBlock(es, r, Float3Encoder(order), Float3Decoder(order), 12, eq);
    }
    forall i | 0 <= i < |es| ensures eq(es[i], es[i]) <==> Float3NaNFree(es[i]) {
      Float3EqSelf(es[i]);
    }
  }

  lemma Float2Block(es: seq<Float2Bits>, r: seq<Byte>, order: ByteOrder)
    ensures Reads(EncodeBlock(es, Float2Encoder(order)) + r, es, 8, Float2Decoder(order), r)
    ensures MatchBlock(EncodeBlock(es, Float2Encoder(order)) + r, es, 8, Float2Decoder(order), Float2Eq) ==
      if forall i :: 0 <= i < |es| ==> Float2NaNFree(es[i]) then Some(r) else None
  {
    assert Reads(EncodeBlock(es, Float2Encoder(order)) + r, es, 8, Float2Decoder(order), r) by {
      Float2Codec(order);
      DecodeEncodeBlock(es, r, Float2Encoder(order), Float2Decoder(order), 8);
    }
    var eq: (Float2Bits, Float2Bits) -> bool := Float2Eq;
    assert MatchBlock(EncodeBlock(es, Float2Encoder(order)) + r, es, 8, Float2Decoder(order), eq) ==
      if forall i :: 0 <= i < |es| ==> eq(es[i], es[i]) then Some(r) else None by {
      Float2Codec(order);
      MatchEncodedBlock(es, r, Float2Encoder(order), Float2Decoder(order), 8, eq);
    }
    forall i | 0 <= i < |es| ensures eq(es[i], es[i]) <==> Float2NaNFree(es[i]) {
      Float2EqSelf(es[i]);
    }
  }

  lemma MeshletBlock(es: seq<Meshlet>, r: seq<Byte>, order: ByteOrder)
    ensures Reads(EncodeBlock(es, MeshletEncoder(order)) + r, es, 16, MeshletDecoder(order), r)
    ensures MatchBlock(EncodeBlock(es, MeshletEncoder(order)) + r, es, 16, MeshletDecoder(order), MeshletEq) ==
      Some(r)
  {
    MeshletCodec(order);
    DecodeEncodeBlock(es, r, MeshletEncoder(order), MeshletDecoder(order), 16);
  }

  lemma BoundsBlock(es: seq<BoundsBits>, r: seq<Byte>, order: ByteOrder)
    ensures Reads(EncodeBlock(es, BoundsEncoder(order)) + r, es, 24, BoundsDecoder(order), r)
    ensures MatchBlock(EncodeBlock(es, BoundsEncoder(order)) + r, es, 24, BoundsDecoder(order), BoundsEq) ==
      if forall i :: 0 <= i < |es| ==> Float3NaNFree(es[i].localCenter) && Float3NaNFree(es[i].localExtents) then Some(r) else None
  {
    assert Reads(EncodeBlock(es, BoundsEncoder(order)) + r, es, 24, BoundsDecoder(order), r) by {
      BoundsCodec(order);
      DecodeEncodeBlock(es, r, BoundsEncoder(order), BoundsDecoder(order), 24);
    }
    var eq: (BoundsBits, BoundsBits) -> bool := BoundsEq;
    assert MatchBlock(EncodeBlock(es, BoundsEncoder(order)) + r, es, 24, BoundsDecoder(order), eq) ==
      if forall i :: 0 <= i < |es| ==> eq(es[i], es[i]) then Some(r) else None by {
      BoundsCodec(order);
      MatchEncodedBlock(es, r, BoundsEncoder(order), BoundsDecoder(order), 24, eq);
    }
    forall i | 0 <= i < |es|
      ensures eq(es[i], es[i]) <==> Float3NaNFree(es[i].localCenter) && Float3NaNFree(es[i].localExtents)
    {
      Float3EqSelf(es[i].localCenter);
      Float3EqSelf(es[i].localExtents);
    }
  }

  lemma TriangleBlock(es: seq<PackedTriangle>, r: seq<Byte>, order: ByteOrder)
    ensures Reads(EncodeBlock(es, TriangleEncoder(order)) + r, es, 4, TriangleDecoder(order), r)
    ensures MatchBlock(EncodeBlock(es, TriangleEncoder(order)) + r, es, 4, TriangleDecoder(order), TriangleEq) ==
      Some(r)
  {
    TriangleCodec(order);
    DecodeEncodeBlock(es, r, TriangleEncoder(order), TriangleDecoder(order), 4);
  }

  /** The counts read, one by one. */
  lemma CountsAt(bs: seq<Byte>, m: MeshBits, order: ByteOrder)
    requires CountsMatch(bs, m, order)
    ensures CountAt(bs, 0, order) == |m.indices| && CountAt(bs, 1, order) == |m.positions|
    ensures CountAt(bs, 2, order) == |m.normals| && CountAt(bs, 3, order) == |m.texcoords|
    ensures CountAt(bs, 4, order) == |m.meshlets| && CountAt(bs, 5, order) == |m.bounds|
    ensures CountAt(bs, 6, order) == |m.triangles| && CountAt(bs, 7, order) == |m.meshletVertices|
  {
    assert Counts(m)[0] == |m.indices| && Counts(m)[1] == |m.positions|;
    assert Counts(m)[2] == |m.normals| && Counts(m)[3] == |m.texcoords|;
    assert Counts(m)[4] == |m.meshlets| && Counts(m)[5] == |m.bounds|;
    assert Counts(m)[6] == |m.triangles| && Counts(m)[7] == |m.meshletVertices|;
  }

  lemma DecodeStreamsOf(bs: seq<Byte>, m: MeshBits, t1: seq<Byte>, t2: seq<Byte>, t3: seq<Byte>, t4: seq<Byte>,
                        order: ByteOrder)
    requires |bs| >= CountsSize
    requires CountAt(bs, 0, order) == |m.indices| && CountAt(bs, 1, order) == |m.positions|
    requires CountAt(bs, 2, order) == |m.normals| && CountAt(bs, 3, order) == |m.texcoords|
    requires Reads(bs[CountsSize..], m.indices, 4, U32Decoder(order), t1)
    requires Reads(t1, m.positions, 12, Float3Decoder(order), t2)
    requires Reads(t2, m.normals, 12, Float3Decoder(order), t3)
    requires Reads(t3, m.texcoords, 8, Float2Decoder(order), t4)
    ensures DecodeStreams(bs, order) == Some((m.(meshlets := [], bounds := [], triangles := [], meshletVertices := []), t4))
  {
  }

  lemma DecodeClustersOf(bs: seq<Byte>, t4: seq<Byte>, streams: MeshBits, m: MeshBits, t5: seq<Byte>, t6: seq<Byte>,
                         t7: seq<Byte>, r: seq<Byte>, order: ByteOrder)
    requires |bs| >= CountsSize
    requires CountAt(bs, 4, order) == |m.meshlets| && CountAt(bs, 5, order) == |m.bounds|
    requires CountAt(bs, 6, order) == |m.triangles| && CountAt(bs, 7, order) == |m.meshletVertices|
    requires streams == m.(meshlets := [], bounds := [], triangles := [], meshletVertices := [])
    requires Reads(t4, m.meshlets, 16, MeshletDecoder(order), t5)
    requires Reads(t5, m.bounds, 24, BoundsDecoder(order), t6)
    requires Reads(t6, m.triangles, 4, TriangleDecoder(order), t7)
    requires Reads(t7, m.meshletVertices, 4, U32Decoder(order), r)
    ensures DecodeClusters(bs, t4, streams, order) == Some((m, r))
  {
  }

  lemma DecodeMeshOf(bs: seq<Byte>, streams: MeshBits, rest: seq<Byte>, m: MeshBits, r: seq<Byte>, order: ByteOrder)
    requires |bs| >= CountsSize
    requires DecodeStreams(bs, order) == Some((streams, rest))
    requires DecodeClusters(bs, rest, streams, order) == Some((m, r))
    ensures DecodeMesh(bs, order) == Some((m, r))
  {
  }

  /** A mesh read back from what the writer wrote for it is that mesh. */
  lemma DecodeEncodeMesh(m: MeshBits, r: seq<Byte>, order: ByteOrder)
    requires MeshEncodable(m)
    ensures DecodeMesh(EncodeMesh(m, order) + r, order) == Some((m, r))
  {
    var t7 := EncodeBlock(m.meshletVertices, U32Encoder(order)) + r;
    var t6 := EncodeBlock(m.triangles, TriangleEncoder(order)) + t7;
    var t5 := EncodeBlock(m.bounds, BoundsEncoder(order)) + t6;
    var t4 := EncodeBlock(m.meshlets, MeshletEncoder(order)) + t5;
    var t3 := EncodeBlock(m.texcoords, Float2Encoder(order)) + t4;
    var t2 := EncodeBlock(m.normals, Float3Encoder(order)) + t3;
    var t1 := EncodeBlock(m.positions, Float3Encoder(order)) + t2;
    var t0 := EncodeBlock(m.indices, U32Encoder(order)) + t1;
    MeshLayout(m, r, order);
    CountsRoundTrip(m, t0, order);
    U32Block(m.indices, t1, order);
    Float3Block(m.positions, t2, order);
    Float3Block(m.normals, t3, order);
    Float2Block(m.texcoords, t4, order);
    MeshletBlock(m.meshlets, t5, order);
    BoundsBlock(m.bounds, t6, order);
    TriangleBlock(m.triangles, t7, order);
    U32Block(m.meshletVertices, r, order);
    var bs := EncodeMesh(m, order) + r;
    CountsAt(bs, m, order);
    DecodeStreamsOf(bs, m, t1, t2, t3, t4, order);
    var streams := m.(meshlets := [], bounds := [], triangles := [], meshletVertices := []);
    DecodeClustersOf(bs, t4, streams, m, t5, t6, t7, r, order);
    DecodeMeshOf(bs, streams, t4, m, r, order);
  }

  /** The written stream blocks read back exactly when none of their floats
      is a NaN. */
  lemma MatchEncodedStreams(m: MeshBits, t0: seq<Byte>, t1: seq<Byte>, t2: seq<Byte>, t3: seq<Byte>, t4: seq<Byte>,
                            order: ByteOrder)
    requires t0 == EncodeBlock(m.indices, U32Encoder(order)) + t1
    requires t1 == EncodeBlock(m.positions, Float3Encoder(order)) + t2
    requires t2 == EncodeBlock(m.normals, Float3Encoder(order)) + t3
    requires t3 == EncodeBlock(m.texcoords, Float2Encoder(order)) + t4
    ensures MatchStreams(t0, m, order) == if StreamsNaNFree(m) then Some(t4) else None
  {
    U32Block(m.indices, t1, order);
    Float3Block(m.positions, t2, order);
    Float3Block(m.normals, t3, order);
    Float2Block(m.texcoords, t4, order);
  }

  /** The written meshlet blocks read back exactly when no bound is a NaN;
      triangles compare equal to themselves whatever their padding. */
  lemma MatchEncodedClusters(m: MeshBits, t4: seq<Byte>, t5: seq<Byte>, t6: seq<Byte>, t7: seq<Byte>, r: seq<Byte>,
                             order: ByteOrder)
    requires t4 == EncodeBlock(m.meshlets, MeshletEncoder(order)) + t5
    requires t5 == EncodeBlock(m.bounds, BoundsEncoder(order)) + t6
    requires t6 == EncodeBlock(m.triangles, TriangleEncoder(order)) + t7
    requires t7 == EncodeBlock(m.meshletVertices, U32Encoder(order)) + r
    ensures MatchClusters(t4, m, order) == if BoundsNaNFree(m) then Some(r) else None
  {
    MeshletBlock(m.meshlets, t5, order);
    BoundsBlock(m.bounds, t6, order);
    TriangleBlock(m.triangles, t7, order);
    U32Block(m.meshletVertices, r, order);
  }

  /** The read-back accepts a freshly written mesh exactly when none of its
      floats is a NaN (a NaN compares unequal to itself). */
  lemma MatchEncodedMesh(m: MeshBits, r: seq<Byte>, order: ByteOrder)
    requires MeshEncodable(m)
    ensures MatchMesh(EncodeMesh(m, order) + r, m, order) == if MeshNaNFree(m) then Some(r) else None
  {
    var t7 := EncodeBlock(m.meshletVertices, U32Encoder(order)) + r;
    var t6 := EncodeBlock(m.triangles, TriangleEncoder(order)) + t7;
    var t5 := EncodeBlock(m.bounds, BoundsEncoder(order)) + t6;
    var t4 := EncodeBlock(m.meshlets, MeshletEncoder(order)) + t5;
    var t3 := EncodeBlock(m.texcoords, Float2Encoder(order)) + t4;
    var t2 := EncodeBlock(m.normals, Float3Encoder(order)) + t3;
    var t1 := EncodeBlock(m.positions, Float3Encoder(order)) + t2;
    var t0 := EncodeBlock(m.indices, U32Encoder(order)) + t1;
    MeshLayout(m, r, order);
    CountsRoundTrip(m, t0, order);
    MatchEncodedStreams(m, t0, t1, t2, t3, t4, order);
    MatchEncodedClusters(m, t4, t5, t6, t7, r, order);
  }

  lemma {:induction false} EncodeSizesUnrolled(c0: U64, c1: U64, c2: U64, c3: U64, c4: U64, c5: U64, c6: U64, c7: U64,
                                              order: ByteOrder)
    ensures EncodeSizes([c0, c1, c2, c3, c4, c5, c6, c7], order) ==
      U64Bytes(c0, order) + U64Bytes(c1, order) + U64Bytes(c2, order) + U64Bytes(c3, order)
      + U64Bytes(c4, order) + U64Bytes(c5, order) + U64Bytes(c6, order) + U64Bytes(c7, order)
  {
    var b0, b1, b2, b3 := U64Bytes(c0, order), U64Bytes(c1, order), U64Bytes(c2, order), U64Bytes(c3, order);
    var b4, b5, b6, b7 := U64Bytes(c4, order), U64Bytes(c5, order), U64Bytes(c6, order), U64Bytes(c7, order);
    assert [c7][1..] == [];
    assert EncodeSizes([c7], order) == b7 + [] == b7;
    assert [c6, c7][1..] == [c7];
    assert EncodeSizes([c6, c7], order) == b6 + b7;
    assert [c5, c6, c7][1..] == [c6, c7];
    assert EncodeSizes([c5, c6, c7], order) == b5 + (b6 + b7);
    assert [c4, c5, c6, c7][1..] == [c5, c6, c7];
    assert EncodeSizes([c4, c5, c6, c7], order) == b4 + (b5 + (b6 + b7));
    assert [c3, c4, c5, c6, c7][1..] == [c4, c5, c6, c7];
    assert EncodeSizes([c3, c4, c5, c6, c7], order) == b3 + (b4 + (b5 + (b6 + b7)));
    assert [c2, c3, c4, c5, c6, c7][1..] == [c3, c4, c5, c6, c7];
    assert EncodeSizes([c2, c3, c4, c5, c6, c7], order) == b2 + (b3 + (b4 + (b5 + (b6 + b7))));
    assert [c1, c2, c3, c4, c5, c6, c7][1..] == [c2, c3, c4, c5, c6, c7];
    assert EncodeSizes([c1, c2, c3, c4, c5, c6, c7], order) == b1 + (b2 + (b3 + (b4 + (b5 + (b6 + b7)))));
    assert [c0, c1, c2, c3, c4, c5, c6, c7][1..] == [c1, c2, c3, c4, c5, c6, c7];
  }

  /** The counts as the writer's eight `fwrite` calls lay them down. */
  lemma CountsUnrolled(m: MeshBits, order: ByteOrder)
    requires MeshEncodable(m)
    ensures EncodeCounts(m, order) ==
      U64Bytes(|m.indices|, order) + U64Bytes(|m.positions|, order) + U64Bytes(|m.normals|, order)
      + U64Bytes(|m.texcoords|, order) + U64Bytes(|m.meshlets|, order) + U64Bytes(|m.bounds|, order)
      + U64Bytes(|m.triangles|, order) + U64Bytes(|m.meshletVertices|, order)
  {
    EncodeSizesUnrolled(|m.indices|, |m.positions|, |m.normals|, |m.texcoords|,
                        |m.meshlets|, |m.bounds|, |m.triangles|, |m.meshletVertices|, order);
  }

  lemma Append8(f: seq<Byte>, a0: seq<Byte>, a1: seq<Byte>, a2: seq<Byte>, a3: seq<Byte>, a4: seq<Byte>, a5: seq<Byte>,
                a6: seq<Byte>, a7: seq<Byte>)
    ensures f + a0 + a1 + a2 + a3 + a4 + a5 + a6 + a7 == f + (a0 + a1 + a2 + a3 + a4 + a5 + a6 + a7)
  {
  }

  lemma Associate<T>(a: seq<T>, b: seq<T>, c: seq<T>)
    ensures a + b + c == a + (b + c)
  {
  }

  /** The writer's eight count `fwrite`s of one mesh. */
  method WriteCounts(file: seq<Byte>, m: MeshBits, order: ByteOrder) returns (out: seq<Byte>)
    requires MeshEncodable(m)
    ensures out == file + EncodeCounts(m, order)
  {
    out := file + U64Bytes(|m.indices|, order);
    out := out + U64Bytes(|m.positions|, order);
    out := out + U64Bytes(|m.normals|, order);
    out := out + U64Bytes(|m.texcoords|, order);
    out := out + U64Bytes(|m.meshlets|, order);
    out := out + U64Bytes(|m.bounds|, order);
    out := out + U64Bytes(|m.triangles|, order);
    out := out + U64Bytes(|m.meshletVertices|, order);
    CountsUnrolled(m, order);
    Append8(file, U64Bytes(|m.indices|, order), U64Bytes(|m.positions|, order), U64Bytes(|m.normals|, order),
            U64Bytes(|m.texcoords|, order), U64Bytes(|m.meshlets|, order), U64Bytes(|m.bounds|, order),
            U64Bytes(|m.triangles|, order), U64Bytes(|m.meshletVertices|, order));
  }

  /** The writer's eight block `fwrite`s of one mesh. */
  method WriteBlocks(file: seq<Byte>, m: MeshBits, order: ByteOrder) returns (out: seq<Byte>)
    ensures out == file + EncodeBlocks(m, order)
  {
    out := file + EncodeBlock(m.indices, U32Encoder(order));
    out := out + EncodeBlock(m.positions, Float3Encoder(order));
    out := out + EncodeBlock(m.normals, Float3Encoder(order));
    out := out + EncodeBlock(m.texcoords, Float2Encoder(order));
    out := out + EncodeBlock(m.meshlets, MeshletEncoder(order));
    out := out + EncodeBlock(m.bounds, BoundsEncoder(order));
    out := out + EncodeBlock(m.triangles, TriangleEncoder(order));
    out := out + EncodeBlock(m.meshletVertices, U32Encoder(order));
    Append8(file, EncodeBlock(m.indices, U32Encoder(order)), EncodeBlock(m.positions, Float3Encoder(order)),
            EncodeBlock(m.normals, Float3Encoder(order)), EncodeBlock(m.texcoords, Float2Encoder(order)),
            EncodeBlock(m.meshlets, MeshletEncoder(order)), EncodeBlock(m.bounds, BoundsEncoder(order)),
            EncodeBlock(m.triangles, TriangleEncoder(order)), EncodeBlock(m.meshletVertices, U32Encoder(order)));
  }

  /** One turn of the writer's mesh loop. */
  method WriteMesh(file: seq<Byte>, m: MeshBits, order: ByteOrder) returns (out: seq<Byte>)
    requires MeshEncodable(m)
    ensures out == file + EncodeMesh(m, order)
  {
    out := WriteCounts(file, m, order);
    out := WriteBlocks(out, m, order);
    Associate(file, EncodeCounts(m, order), EncodeBlocks(m, order));
  }

  // ---------------------------------------------------------------------
  // Runs of variable-length records, each read back from the front of what
  // follows it. The whole file is a run of meshes.

  function EncodeAll<E>(es: seq<E>, encode: E --> seq<Byte>): seq<Byte>
    requires forall i :: 0 <= i < |es| ==> encode.requires(es[i])
  {
    if es == [] then [] else encode(es[0]) + EncodeAll(es[1..], encode)
  }

  /** `n` records read one after the other from the front of `r`. */
  function DecodeAll<E>(r: seq<Byte>, n: nat, decode: seq<Byte> -> Option<(E, seq<Byte>)>): (res: Option<(seq<E>, seq<Byte>)>)
    ensures res.Some? ==> |res.value.0| == n
    decreases n
  {
    if n == 0 then Some(([], r))
    else
      var first :- decode(r);
      var rest :- DecodeAll(first.1, n - 1, decode);
      Some(([first.0] + rest.0, rest.1))
  }

  /** Each record of `es` is checked in turn against what follows the
      previous one. */
  predicate MatchAll<E>(r: seq<Byte>, es: seq<E>, check: (seq<Byte>, E) -> Option<seq<Byte>>)
    decreases |es|
  {
    if es == [] then true
    else
      match check(r, es[0])
      case None => false
      case Some(rest) => MatchAll(rest, es[1..], check)
  }

  lemma {:induction false} EncodeAllAppend<E>(es: seq<E>, e: E, encode: E --> seq<Byte>)
    requires forall i :: 0 <= i < |es| ==> encode.requires(es[i])
    requires encode.requires(e)
    ensures EncodeAll(es + [e], encode) == EncodeAll(es, encode) + encode(e)
    decreases |es|
  {
    if es == [] {
      assert EncodeAll([e], encode) == encode(e) + EncodeAll([e][1..], encode);
    } else {
      assert (es + [e])[1..] == es[1..] + [e];
      EncodeAllAppend(es[1..], e, encode);
    }
  }

  lemma {:induction false} DecodeEncodeAll<E>(es: seq<E>, r: seq<Byte>, encode: E --> seq<Byte>,
                                              decode: seq<Byte> -> Option<(E, seq<Byte>)>)
    requires forall i :: 0 <= i < |es| ==> encode.requires(es[i])
    requires forall i, t :: 0 <= i < |es| ==> decode(encode(es[i]) + t) == Some((es[i], t))
    ensures DecodeAll(EncodeAll(es, encode) + r, |es|, decode) == Some((es, r))
    decreases |es|
  {
    if es == [] {
      assert EncodeAll(es, encode) + r == r;
    } else {
      var tail := EncodeAll(es[1..], encode) + r;
      assert EncodeAll(es, encode) + r == encode(es[0]) + tail;
      assert decode(encode(es[0]) + tail) == Some((es[0], tail));
      assert forall i, t :: 0 <= i < |es[1..]| ==> decode(encode(es[1..][i]) + t) == Some((es[1..][i], t)) by {
        forall i, t | 0 <= i < |es[1..]| ensures decode(encode(es[1..][i]) + t) == Some((es[1..][i], t)) {
          assert es[1..][i] == es[i + 1];
        }
      }
      DecodeEncodeAll(es[1..], r, encode, decode);
      assert [es[0]] + es[1..] == es;
    }
  }

  /** The record `e`, written and followed by `t`, passes `check` exactly
      when `good(e)`, and the check then stops where `t` starts. */
  ghost predicate ChecksAs<E>(check: (seq<Byte>, E) -> Option<seq<Byte>>, encode: E --> seq<Byte>, good: E -> bool,
                              e: E, t: seq<Byte>)
    requires encode.requires(e)
  {
    check(encode(e) + t, e) == if good(e) then Some(t) else None
  }

  lemma {:induction false} MatchEncodedAll<E>(es: seq<E>, r: seq<Byte>, encode: E --> seq<Byte>,
                                              check: (seq<Byte>, E) -> Option<seq<Byte>>, good: E -> bool)
    requires forall i :: 0 <= i < |es| ==> encode.requires(es[i])
    requires forall i, t :: 0 <= i < |es| ==> ChecksAs(check, encode, good, es[i], t)
    ensures MatchAll(EncodeAll(es, encode) + r, es, check) <==> forall i :: 0 <= i < |es| ==> good(es[i])
    decreases |es|
  {
    if es != [] {
      var tail := EncodeAll(es[1..], encode) + r;
      assert EncodeAll(es, encode) + r == encode(es[0]) + tail;
      assert ChecksAs(check, encode, good, es[0], tail);
      forall i, t | 0 <= i < |es[1..]| ensures ChecksAs(check, encode, good, es[1..][i], t) {
        assert es[1..][i] == es[i + 1];
        assert ChecksAs(check, encode, good, es[i + 1], t);
      }
      MatchEncodedAll(es[1..], r, encode, check, good);
      assert forall i :: 1 <= i < |es| ==> es[i] == es[1..][i - 1];
    }
  }

  /** One record checked, then the rest of the run. */
  lemma MatchAllStep<E>(r: seq<Byte>, es: seq<E>, i: nat, check: (seq<Byte>, E) -> Option<seq<Byte>>)
    requires i < |es|
    ensures MatchAll(r, es[i..], check) == (check(r, es[i]).Some? && MatchAll(check(r, es[i]).value, es[i + 1..], check))
  {
    assert es[i..][1..] == es[i + 1..];
  }

  // ---------------------------------------------------------------------
  // The whole file: magic, mesh count, meshes.

  const HeaderSize: nat := 17

  /** The writer's loop counter is a `uint32_t` while the count it runs to
      is a `size_t`, so at most 2^32 - 1 meshes can be written. */
  const MeshCountLimit: int := 0x1_0000_0000

  predicate Encodable(ms: seq<MeshBits>)
  {
    |ms| < MeshCountLimit && forall i :: 0 <= i < |ms| ==> MeshEncodable(ms[i])
  }

  function MeshEncoder(order: ByteOrder): MeshBits --> seq<Byte>
  {
    m requires MeshEncodable(m) => EncodeMesh(m, order)
  }

  function MeshDecoder(order: ByteOrder): seq<Byte> -> Option<(MeshBits, seq<Byte>)>
  {
    r => DecodeMesh(r, order)
  }

  function MeshChecker(order: ByteOrder): (seq<Byte>, MeshBits) -> Option<seq<Byte>>
  {
    (r, m) => MatchMesh(r, m, order)
  }

  /** The file the converter writes for `ms`. */
  function Encode(ms: seq<MeshBits>, order: ByteOrder): seq<Byte>
    requires Encodable(ms)
  {
    Magic + U64Bytes(|ms|, order) + EncodeAll(ms, MeshEncoder(order))
  }

  /** A reader of the whole file: the magic, the count, that many meshes,
      and nothing after them. */
  function Decode(file: seq<Byte>, order: ByteOrder): Option<seq<MeshBits>>
  {
    if |file| < HeaderSize || file[..9] != Magic then None
    else
      var meshes :- DecodeAll(file[HeaderSize..], U64Value(file[9..HeaderSize], order), MeshDecoder(order));
      if meshes.1 == [] then Some(meshes.0) else None
  }

  /** The read-back test passes on `file` for the in-memory meshes `ms`:
      the count read is the number of meshes and every mesh matches. The
      magic is read but not checked, and bytes after the last mesh are not
      read. */
  predicate ReadBackPasses(file: seq<Byte>, ms: seq<MeshBits>, order: ByteOrder)
  {
    |file| >= HeaderSize && U64Value(file[9..HeaderSize], order) == |ms| && MatchAll(file[HeaderSize..], ms, MeshChecker(order))
  }

  /** The file's header and body. */
  lemma EncodeLayout(ms: seq<MeshBits>, order: ByteOrder)
    requires Encodable(ms)
    ensures |Encode(ms, order)| >= HeaderSize
    ensures Encode(ms, order)[..9] == Magic
    ensures U64Value(Encode(ms, order)[9..HeaderSize], order) == |ms|
    ensures Encode(ms, order)[HeaderSize..] == EncodeAll(ms, MeshEncoder(order)) + []
  {
    var body := EncodeAll(ms, MeshEncoder(order));
    assert Encode(ms, order) == Magic + U64Bytes(|ms|, order) + body;
    assert Encode(ms, order)[9..HeaderSize] == U64Bytes(|ms|, order);
    U64RoundTrip(|ms|, order);
  }

  lemma MeshesDecode(ms: seq<MeshBits>, order: ByteOrder)
    requires Encodable(ms)
    ensures forall i, t :: 0 <= i < |ms| ==> MeshDecoder(order)(MeshEncoder(order)(ms[i]) + t) == Some((ms[i], t))
  {
    forall i, t | 0 <= i < |ms| ensures MeshDecoder(order)(MeshEncoder(order)(ms[i]) + t) == Some((ms[i], t)) {
      DecodeEncodeMesh(ms[i], t, order);
    }
  }

  lemma MeshesCheck(ms: seq<MeshBits>, order: ByteOrder)
    requires Encodable(ms)
    ensures forall i, t :: 0 <= i < |ms| ==> ChecksAs(MeshChecker(order), MeshEncoder(order), MeshNaNFree, ms[i], t)
  {
    forall i, t | 0 <= i < |ms| ensures ChecksAs(MeshChecker(order), MeshEncoder(order), MeshNaNFree, ms[i], t) {
      MatchEncodedMesh(ms[i], t, order);
    }
  }

  /** Reading the written file gives back the meshes written. */
  lemma DecodeEncode(ms: seq<MeshBits>, order: ByteOrder)
    requires Encodable(ms)
    ensures Decode(Encode(ms, order), order) == Some(ms)
  {
    EncodeLayout(ms, order);
    MeshesDecode(ms, order);
    DecodeEncodeAll(ms, [], MeshEncoder(order), MeshDecoder(order));
  }

  /** The converter's own check accepts the file it has just written exactly
      when no float in any mesh is a NaN. */
  lemma ReadBackOfWritten(ms: seq<MeshBits>, order: ByteOrder)
    requires Encodable(ms)
    ensures ReadBackPasses(Encode(ms, order), ms, order) <==> forall i :: 0 <= i < |ms| ==> MeshNaNFree(ms[i])
  {
    EncodeLayout(ms, order);
    MeshesCheck(ms, order);
    MatchEncodedAll(ms, [], MeshEncoder(order), MeshChecker(order), MeshNaNFree);
  }

  lemma TakeSnoc<T>(s: seq<T>, i: nat)
    requires i < |s|
    ensures s[..i + 1] == s[..i] + [s[i]]
  {
  }

  /** One more record written extends the run by that record's bytes. */
  lemma WriteStep<E>(es: seq<E>, i: nat, header: seq<Byte>, encode: E --> seq<Byte>)
    requires forall j :: 0 <= j < |es| ==> encode.requires(es[j])
    requires i < |es|
    ensures header + EncodeAll(es[..i], encode) + encode(es[i]) == header + EncodeAll(es[..i + 1], encode)
  {
    EncodeAllAppend(es[..i], es[i], encode);
    TakeSnoc(es, i);
  }

  /** The writer: the magic, the mesh count, then each mesh in turn. */
  method WriteFile(ms: seq<MeshBits>, order: ByteOrder) returns (file: seq<Byte>)
    requires Encodable(ms)
    ensures file == Encode(ms, order)
  {
    file := Magic;
    file := file + U64Bytes(|ms|, order);
    var i := 0;
    while i < |ms|
      invariant 0 <= i <= |ms|
      invariant file == Magic + U64Bytes(|ms|, order) + EncodeAll(ms[..i], MeshEncoder(order))
    {
      WriteStep(ms, i, Magic + U64Bytes(|ms|, order), MeshEncoder(order));
      file := WriteMesh(file, ms[i], order);
      i := i + 1;
    }
    assert ms[..i] == ms;
  }

  // ---------------------------------------------------------------------
  // The read-back test. A short read fails it; every `assert` of the
  // source is a `false` result here.

  /** The eight count reads and comparisons of one mesh. */
  method CheckCounts(file: seq<Byte>, pos: nat, m: MeshBits, order: ByteOrder) returns (ok: bool)
    requires pos <= |file|
    ensures ok == CountsMatch(file[pos..], m, order)
  {
    if |file| - pos < CountsSize {
      return false;
    }
    var j := 0;
    while j < 8
      invariant j <= 8
      invariant forall k :: 0 <= k < j ==> CountAt(file[pos..], k, order) == Counts(m)[k]
    {
      assert file[pos..][8 * j..8 * j + 8] == file[pos + 8 * j..pos + 8 * j + 8];
      if U64Value(file[pos + 8 * j..pos + 8 * j + 8], order) != Counts(m)[j] {
        return false;
      }
      j := j + 1;
    }
    return true;
  }

  /** The checks of the four vertex-stream blocks from `pos`. */
  method CheckStreams(file: seq<Byte>, pos: nat, m: MeshBits, order: ByteOrder) returns (ok: bool, next: nat)
    requires pos <= |file|
    ensures ok == MatchStreams(file[pos..], m, order).Some?
    ensures ok ==> pos <= next <= |file| && file[next..] == MatchStreams(file[pos..], m, order).value
  {
    Decoders(order);
    ok, next := CheckBlock(file, pos, m.indices, 4, U32Decoder(order), U32Eq);
    if !ok { return; }
    ok, next := CheckBlock(file, next, m.positions, 12, Float3Decoder(order), Float3Eq);
    if !ok { return; }
    ok, next := CheckBlock(file, next, m.normals, 12, Float3Decoder(order), Float3Eq);
    if !ok { return; }
    ok, next := CheckBlock(file, next, m.texcoords, 8, Float2Decoder(order), Float2Eq);
  }

  /** The checks of the four meshlet blocks from `pos`. */
  method CheckClusters(file: seq<Byte>, pos: nat, m: MeshBits, order: ByteOrder) returns (ok: bool, next: nat)
    requires pos <= |file|
    ensures ok == MatchClusters(file[pos..], m, order).Some?
    ensures ok ==> pos <= next <= |file| && file[next..] == MatchClusters(file[pos..], m, order).value
  {
    Decoders(order);
    ok, next := CheckBlock(file, pos, m.meshlets, 16, MeshletDecoder(order), MeshletEq);
    if !ok { return; }
    ok, next := CheckBlock(file, next, m.bounds, 24, BoundsDecoder(order), BoundsEq);
    if !ok { return; }
    ok, next := CheckBlock(file, next, m.triangles, 4, TriangleDecoder(order), TriangleEq);
    if !ok { return; }
    ok, next := CheckBlock(file, next, m.meshletVertices, 4, U32Decoder(order), U32Eq);
  }

  /** One turn of the read-back's mesh loop. */
  method CheckMesh(file: seq<Byte>, pos: nat, m: MeshBits, order: ByteOrder) returns (ok: bool, next: nat)
    requires pos <= |file|
    ensures ok == MatchMesh(file[pos..], m, order).Some?
    ensures ok ==> pos <= next <= |file| && file[next..] == MatchMesh(file[pos..], m, order).value
  {
    next := pos;
    ok := CheckCounts(file, pos, m, order);
    if !ok { return; }
    assert file[pos..][CountsSize..] == file[pos + CountsSize..];
    ok, next := CheckStreams(file, pos + CountsSize, m, order);
    if !ok { return; }
    ok, next := CheckClusters(file, next, m, order);
  }

  /** The read-back test of the file just written against the meshes in
      memory. */
  method ReadBack(file: seq<Byte>, ms: seq<MeshBits>, order: ByteOrder) returns (ok: bool)
    ensures ok == ReadBackPasses(file, ms, order)
  {
    if |file| < HeaderSize || U64Value(file[9..HeaderSize], order) != |ms| {
      return false;
    }
    var p: nat, i := HeaderSize, 0;
    while i < |ms|
      invariant HeaderSize <= p <= |file| && i <= |ms|
      invariant MatchAll(file[HeaderSize..], ms, MeshChecker(order)) == MatchAll(file[p..], ms[i..], MeshChecker(order))
    {
      MatchAllStep(file[p..], ms, i, MeshChecker(order));
      var next;
      ok, next := CheckMesh(file, p, ms[i], order);
      if !ok {
        return false;
      }
      p, i := next, i + 1;
    }
    return true;
  }
}
