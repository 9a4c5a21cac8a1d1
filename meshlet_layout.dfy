/** The layout arithmetic of the meshlet stage of
    tools/model_converter/src/main.cpp: the 4-byte padding of each meshlet's
    triangle bytes, the trimmed buffer sizes, and the running offsets. */
module MeshletLayout {
  import opened Base
  import opened MeshTypes

  /** `MESHLET_MAX_VERTICES` / `max_vertices` and `MESHLET_MAX_TRIANGLES` / `max_triangles`. */
  const MaxVertices: nat := 64
  const MaxTriangles: nat := 124

  const TwoTo32: nat := 0x1_0000_0000

  function Pow2(k: nat): (r: nat)
    ensures r >= 1
  {
    if k == 0 then 1 else 2 * Pow2(k - 1)
  }

  /** Bitwise AND of two naturals, bit by bit from the least significant. */
  function BitAnd(a: nat, b: nat): nat
  {
    if a == 0 || b == 0 then 0
    else 2 * BitAnd(a / 2, b / 2) + (if a % 2 == 1 && b % 2 == 1 then 1 else 0)
  }

  /** `~3` as a 32-bit unsigned mask. */
  const NotThree: nat := 0xFFFF_FFFC

  lemma {:induction false} BitAndAllOnes(x: nat, k: nat)
    requires x < Pow2(k)
    ensures BitAnd(x, Pow2(k) - 1) == x
  {
    if k > 0 && x > 0 {
      BitAndAllOnes(x / 2, k - 1);
      assert (Pow2(k) - 1) / 2 == Pow2(k - 1) - 1;
    }
  }

  lemma BitAndMultipleOfFour(x: nat, m: nat)
    ensures BitAnd(x, 4 * m) == 4 * BitAnd(x / 4, m)
  {
    if x > 0 && m > 0 {
      assert (4 * m) / 2 == 2 * m && (4 * m) % 2 == 0;
      assert (2 * m) / 2 == m && (2 * m) % 2 == 0;
      if x / 2 > 0 {
        assert BitAnd(x / 2, 2 * m) == 2 * BitAnd(x / 2 / 2, m);
        assert x / 2 / 2 == x / 4;
      }
    }
  }

  lemma Pow2Of30()
    ensures Pow2(30) == 0x4000_0000
  {
    assert Pow2(2) == 4;
    assert Pow2(4) == 16;
    assert Pow2(6) == 64;
    assert Pow2(8) == 256;
    assert Pow2(10) == 1024;
    assert Pow2(12) == 4096;
    assert Pow2(14) == 16384;
    assert Pow2(16) == 65536;
    assert Pow2(18) == 262144;
    assert Pow2(20) == 1048576;
    assert Pow2(22) == 4194304;
    assert Pow2(24) == 16777216;
    assert Pow2(26) == 67108864;
    assert Pow2(28) == 268435456;
  }

  /** Masking a 32-bit value with `~3` clears its two low bits. */
  lemma ClearLowTwoBits(x: nat)
    requires x < TwoTo32
    ensures BitAnd(x, NotThree) == x - x % 4
  {
    Pow2Of30();
    BitAndMultipleOfFour(x, Pow2(30) - 1);
    BitAndAllOnes(x / 4, 30);
  }

  /** `(triangle_count * 3 + 3) & ~3` in 32-bit unsigned arithmetic: the
      bytes one meshlet's triangles take in the clustering output. */
  function PaddedTriangleBytes(triangleCount: U32): nat
  {
    BitAnd((triangleCount * 3 + 3) % TwoTo32, NotThree)
  }

  /** The padded size is the smallest multiple of 4 that holds the
      meshlet's `3 * triangle_count` bytes. */
  lemma PaddedTriangleBytesIsRoundUp(t: U32)
    requires 3 * t + 3 < TwoTo32
    ensures var r := PaddedTriangleBytes(t);
      r % 4 == 0 && 3 * t <= r < 3 * t + 4
  {
    PaddedTriangleBytesIsPaddedSpan(t);
  }

  /** The bytes of `triangleCount` triangles rounded up to a multiple of
      4: the span meshoptimizer reserves for one meshlet's triangles. */
  function PaddedSpan(triangleCount: nat): (r: nat)
    ensures r % 4 == 0 && 3 * triangleCount <= r < 3 * triangleCount + 4
  {
    (3 * triangleCount + 3) / 4 * 4
  }

  /** The source's masked expression computes that span whenever the 32-bit
      arithmetic does not wrap. */
  lemma PaddedTriangleBytesIsPaddedSpan(t: U32)
    requires 3 * t + 3 < TwoTo32
    ensures PaddedTriangleBytes(t) == PaddedSpan(t)
  {
    var x := 3 * t + 3;
    assert x % TwoTo32 == x;
    assert PaddedTriangleBytes(t) == BitAnd(x, NotThree);
    ClearLowTwoBits(x);
    assert x == x / 4 * 4 + x % 4;
  }

  /** The trimmed triangle-byte count of line 290:
      `last.triangle_offset + ((last.triangle_count * 3 + 3) & ~3)`. */
  function TrimmedTriangleBytes(last: Meshlet): nat
  {
    (last.triangleOffset + PaddedTriangleBytes(last.triangleCount)) % TwoTo32
  }

  /** Without wrap-around the trimmed size is the last meshlet's offset
      plus its padded span. */
  lemma TrimmedTriangleBytesNoWrap(last: Meshlet)
    requires last.triangleOffset + PaddedSpan(last.triangleCount) < TwoTo32
    ensures TrimmedTriangleBytes(last) == last.triangleOffset + PaddedSpan(last.triangleCount)
  {
    PaddedTriangleBytesIsPaddedSpan(last.triangleCount);
  }

  /** The trimmed meshlet-vertex count of line 294:
      `last.vertex_offset + last.vertex_count`. */
  function TrimmedVertexCount(last: Meshlet): nat
  {
    (last.vertexOffset + last.vertexCount) % TwoTo32
  }

  /** The packed-triangle offset of meshlet `i`: the triangle counts of the
      meshlets before it. */
  function TriangleStart(ms: seq<Meshlet>, i: nat): nat
    requires i <= |ms|
  {
    if i == 0 then 0 else TriangleStart(ms, i - 1) + ms[i - 1].triangleCount
  }

  /** The vertex offset at which meshoptimizer places meshlet `i`: the
      vertex counts of the meshlets before it. */
  function VertexStart(ms: seq<Meshlet>, i: nat): nat
    requires i <= |ms|
  {
    if i == 0 then 0 else VertexStart(ms, i - 1) + ms[i - 1].vertexCount
  }

  /** The triangle-byte offset at which meshoptimizer places meshlet `i`:
      the padded spans of the meshlets before it. */
  function ByteStart(ms: seq<Meshlet>, i: nat): nat
    requires i <= |ms|
  {
    if i == 0 then 0 else ByteStart(ms, i - 1) + PaddedSpan(ms[i - 1].triangleCount)
  }

  /** The three running offsets never decrease. */
  lemma {:induction false} StartsMonotone(ms: seq<Meshlet>, i: nat, j: nat)
    requires i <= j <= |ms|
    ensures VertexStart(ms, i) <= VertexStart(ms, j)
    ensures ByteStart(ms, i) <= ByteStart(ms, j)
    ensures TriangleStart(ms, i) <= TriangleStart(ms, j)
    decreases j - i
  {
    if i < j {
      StartsMonotone(ms, i, j - 1);
    }
  }

  /** The clustering's meshlets lie back to back from offset 0: each one's
      vertices start after the previous meshlets' vertices, and its triangle
      bytes after the previous meshlets' padded spans; every meshlet is
      within the vertex and triangle limits and has a triangle. This is
      what meshoptimizer's `meshopt_buildMeshlets` produces. */
  ghost predicate Contiguous(ms: seq<Meshlet>)
  {
    |ms| >= 1 && forall i :: 0 <= i < |ms| ==> Placed(ms, i)
  }

  /** Meshlet `i` is within the limits and starts right after the meshlets
      before it. */
  ghost predicate Placed(ms: seq<Meshlet>, i: nat)
    requires i < |ms|
  {
    && 1 <= ms[i].triangleCount <= MaxTriangles && 1 <= ms[i].vertexCount <= MaxVertices
    && ms[i].vertexOffset == VertexStart(ms, i) && ms[i].triangleOffset == ByteStart(ms, i)
  }

  /** Meshlet `j` ends where or before meshlet `i` starts, in all three
      buffers. */
  lemma ContiguousOrdered(ms: seq<Meshlet>, j: nat, i: nat)
    requires Contiguous(ms) && j < i < |ms|
    ensures ms[j].vertexOffset + ms[j].vertexCount <= ms[i].vertexOffset
    ensures ms[j].triangleOffset + 3 * ms[j].triangleCount <= ms[i].triangleOffset
    ensures TriangleStart(ms, j) + ms[j].triangleCount <= TriangleStart(ms, i)
  {
    assert Placed(ms, j) && Placed(ms, i);
    StartsMonotone(ms, j + 1, i);
  }

  /** The packed triangles before meshlet `i` fit in a third of its byte
      offset, because every padded span holds at least three bytes per
      triangle. */
  lemma {:induction false} TriangleStartBelowBytes(ms: seq<Meshlet>, i: nat)
    requires i <= |ms|
    ensures 3 * TriangleStart(ms, i) <= ByteStart(ms, i)
  {
    if i > 0 {
      TriangleStartBelowBytes(ms, i - 1);
    }
  }

  /** The triangle total fits in the packed buffer sized `bytes / 3` at line
      296, so the final shrink at line 335 is allowed; and that buffer is
      not empty, as `resize` demands. */
  lemma TotalTrianglesFit(ms: seq<Meshlet>)
    requires Contiguous(ms)
    requires ms[|ms| - 1].triangleOffset + PaddedSpan(ms[|ms| - 1].triangleCount) < TwoTo32
    ensures TrimmedTriangleBytes(ms[|ms| - 1]) == ms[|ms| - 1].triangleOffset + PaddedSpan(ms[|ms| - 1].triangleCount)
    ensures TrimmedTriangleBytes(ms[|ms| - 1]) == ByteStart(ms, |ms|)
    ensures 1 <= TriangleStart(ms, |ms|) <= TrimmedTriangleBytes(ms[|ms| - 1]) / 3
  {
    var last := ms[|ms| - 1];
    assert Placed(ms, |ms| - 1);
    TrimmedTriangleBytesNoWrap(last);
    TriangleStartBelowBytes(ms, |ms|);
  }

  /** The running offsets grow: meshlet `i` ends where or before all the
      meshlets' triangles end. */
  lemma TriangleStartBelowTotal(ms: seq<Meshlet>, i: nat)
    requires i < |ms|
    ensures TriangleStart(ms, i + 1) == TriangleStart(ms, i) + ms[i].triangleCount <= TriangleStart(ms, |ms|)
  {
    StartsMonotone(ms, i + 1, |ms|);
  }
}
