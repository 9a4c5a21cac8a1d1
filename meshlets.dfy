/** The meshlet stage of tools/model_converter/src/main.cpp (lines 273-338):
    the worst-case buffers the clustering fills are trimmed, every meshlet
    gets a bounding box, its local lists are reordered by the foreign
    per-meshlet optimiser, and its triangles are bit-packed behind a running
    offset. */
module Meshlets {
  import opened Base
  import opened FixedArrays
  import opened MeshTypes
  import opened MeshletLayout

  const HighestFloat3: Float3 := Vec3(FltMax, FltMax, FltMax)
  const LowestFloat3: Float3 := Vec3(-FltMax, -FltMax, -FltMax)
  const ZeroBounds: Bounds<real> := Bounds(Vec3(0.0, 0.0, 0.0), Vec3(0.0, 0.0, 0.0))

  /** The running componentwise minimum of `ps`, starting from `init`. */
  function FoldMin(init: Float3, ps: seq<Float3>): Float3
  {
    if ps == [] then init else Float3Min(FoldMin(init, ps[..|ps| - 1]), ps[|ps| - 1])
  }

  /** The running componentwise maximum of `ps`, starting from `init`. */
  function FoldMax(init: Float3, ps: seq<Float3>): Float3
  {
    if ps == [] then init else Float3Max(FoldMax(init, ps[..|ps| - 1]), ps[|ps| - 1])
  }

  /** A position whose coordinates are finite single-precision values. */
  predicate Finite(p: Float3)
  {
    -FltMax <= p.x <= FltMax && -FltMax <= p.y <= FltMax && -FltMax <= p.z <= FltMax
  }

  /** `r` is the componentwise minimum of the non-empty `ps`. */
  predicate IsMinimum(r: Float3, ps: seq<Float3>)
  {
    && (forall k :: 0 <= k < |ps| ==> r.x <= ps[k].x && r.y <= ps[k].y && r.z <= ps[k].z)
    && (exists k :: 0 <= k < |ps| && r.x == ps[k].x)
    && (exists k :: 0 <= k < |ps| && r.y == ps[k].y)
    && (exists k :: 0 <= k < |ps| && r.z == ps[k].z)
  }

  /** `r` is the componentwise maximum of the non-empty `ps`. */
  predicate IsMaximum(r: Float3, ps: seq<Float3>)
  {
    && (forall k :: 0 <= k < |ps| ==> r.x >= ps[k].x && r.y >= ps[k].y && r.z >= ps[k].z)
    && (exists k :: 0 <= k < |ps| && r.x == ps[k].x)
    && (exists k :: 0 <= k < |ps| && r.y == ps[k].y)
    && (exists k :: 0 <= k < |ps| && r.z == ps[k].z)
  }

  /** Starting from `+FLT_MAX`, the running minimum over finite positions is
      their exact minimum. */
  lemma {:induction false} FoldMinIsMinimum(ps: seq<Float3>)
    requires |ps| > 0 && forall k :: 0 <= k < |ps| ==> Finite(ps[k])
    ensures IsMinimum(FoldMin(HighestFloat3, ps), ps)
  {
    var n := |ps| - 1;
    var r := FoldMin(HighestFloat3, ps);
    if n == 0 {
      assert r.x == ps[0].x && r.y == ps[0].y && r.z == ps[0].z;
    } else {
      var front := ps[..n];
      FoldMinIsMinimum(front);
      var acc := FoldMin(HighestFloat3, front);
      forall k | 0 <= k < |ps| ensures r.x <= ps[k].x && r.y <= ps[k].y && r.z <= ps[k].z {
        if k < n { assert ps[k] == front[k]; }
      }
      var kx :| 0 <= kx < n && acc.x == front[kx].x;
      var ky :| 0 <= ky < n && acc.y == front[ky].y;
      var kz :| 0 <= kz < n && acc.z == front[kz].z;
      assert r == Float3Min(acc, ps[n]);
      assert front[kx] == ps[kx] && front[ky] == ps[ky] && front[kz] == ps[kz];
      var wx := if r.x == ps[n].x then n else kx;
      var wy := if r.y == ps[n].y then n else ky;
      var wz := if r.z == ps[n].z then n else kz;
      assert r.x == ps[wx].x && r.y == ps[wy].y && r.z == ps[wz].z;
    }
  }

  /** Starting from `-FLT_MAX`, the running maximum over finite positions is
      their exact maximum. */
  lemma {:induction false} FoldMaxIsMaximum(ps: seq<Float3>)
    requires |ps| > 0 && forall k :: 0 <= k < |ps| ==> Finite(ps[k])
    ensures IsMaximum(FoldMax(LowestFloat3, ps), ps)
  {
    var n := |ps| - 1;
    var r := FoldMax(LowestFloat3, ps);
    if n == 0 {
      assert r.x == ps[0].x && r.y == ps[0].y && r.z == ps[0].z;
    } else {
      var front := ps[..n];
      FoldMaxIsMaximum(front);
      var acc := FoldMax(LowestFloat3, front);
      forall k | 0 <= k < |ps| ensures r.x >= ps[k].x && r.y >= ps[k].y && r.z >= ps[k].z {
        if k < n { assert ps[k] == front[k]; }
      }
      var kx :| 0 <= kx < n && acc.x == front[kx].x;
      var ky :| 0 <= ky < n && acc.y == front[ky].y;
      var kz :| 0 <= kz < n && acc.z == front[kz].z;
      assert r == Float3Max(acc, ps[n]);
      assert front[kx] == ps[kx] && front[ky] == ps[ky] && front[kz] == ps[kz];
      var wx := if r.x == ps[n].x then n else kx;
      var wy := if r.y == ps[n].y then n else ky;
      var wz := if r.z == ps[n].z then n else kz;
      assert r.x == ps[wx].x && r.y == ps[wy].y && r.z == ps[wz].z;
    }
  }

  /** `local_center = (max + min) / 2`, `local_extents = (max - min) / 2`:
      the box reaches exactly from `min` to `max`. */
  function BoundsFromMinMax(mn: Float3, mx: Float3): (b: Bounds<real>)
    ensures Sub(b.localCenter, b.localExtents) == mn
    ensures Add(b.localCenter, b.localExtents) == mx
  {
    Bounds(Div(Add(mx, mn), 2.0), Div(Sub(mx, mn), 2.0))
  }

  /** The indices meshlet `m` reads are within the buffers: its local
      triangle bytes are below its vertex count and its vertices name
      existing positions. */
  predicate Readable(positions: seq<Float3>, vertices: seq<U32>, triangles: seq<Byte>, m: Meshlet)
  {
    && m.vertexOffset + m.vertexCount <= |vertices|
    && m.triangleOffset + 3 * m.triangleCount <= |triangles|
    && (forall k :: m.triangleOffset <= k < m.triangleOffset + 3 * m.triangleCount ==> triangles[k] < m.vertexCount)
    && (forall p :: m.vertexOffset <= p < m.vertexOffset + m.vertexCount ==> vertices[p] < |positions|)
  }

  /** The position of every triangle corner of meshlet `m`, in buffer order:
      `positions[meshlet_vertices[vertex_offset + tri_bytes[triangle_offset + k]]]`. */
  function ReferencedPositions(positions: seq<Float3>, vertices: seq<U32>, triangles: seq<Byte>, m: Meshlet): (ps: seq<Float3>)
    requires Readable(positions, vertices, triangles, m)
    ensures |ps| == 3 * m.triangleCount
  {
    seq(3 * m.triangleCount, k requires 0 <= k < 3 * m.triangleCount =>
      positions[vertices[m.vertexOffset + triangles[m.triangleOffset + k]]])
  }

  /** The bounds the converter computes for meshlet `m`. */
  function MeshletBounds(positions: seq<Float3>, vertices: seq<U32>, triangles: seq<Byte>, m: Meshlet): Bounds<real>
    requires Readable(positions, vertices, triangles, m)
  {
    var ps := ReferencedPositions(positions, vertices, triangles, m);
    BoundsFromMinMax(FoldMin(HighestFloat3, ps), FoldMax(LowestFloat3, ps))
  }

  /** For a meshlet with triangles over finite positions, the box's two
      corners are the componentwise minimum and maximum of the positions
      its triangles reference; every such position lies inside the box. */
  lemma MeshletBoundsExact(positions: seq<Float3>, vertices: seq<U32>, triangles: seq<Byte>, m: Meshlet)
    requires Readable(positions, vertices, triangles, m)
    requires m.triangleCount > 0
    requires forall v :: 0 <= v < |positions| ==> Finite(positions[v])
    ensures var b := MeshletBounds(positions, vertices, triangles, m);
      var ps := ReferencedPositions(positions, vertices, triangles, m);
      IsMinimum(Sub(b.localCenter, b.localExtents), ps) && IsMaximum(Add(b.localCenter, b.localExtents), ps)
  {
    var ps := ReferencedPositions(positions, vertices, triangles, m);
    FoldMinIsMinimum(ps);
    FoldMaxIsMaximum(ps);
  }

  /** The bounds of `m` depend only on `m`'s own spans of the two buffers. */
  lemma MeshletBoundsLocal(positions: seq<Float3>, v1: seq<U32>, t1: seq<Byte>, v2: seq<U32>, t2: seq<Byte>, m: Meshlet)
    requires Readable(positions, v1, t1, m)
    requires m.vertexOffset + m.vertexCount <= |v2| && m.triangleOffset + 3 * m.triangleCount <= |t2|
    requires forall p :: m.vertexOffset <= p < m.vertexOffset + m.vertexCount ==> v2[p] == v1[p]
    requires forall k :: m.triangleOffset <= k < m.triangleOffset + 3 * m.triangleCount ==> t2[k] == t1[k]
    ensures Readable(positions, v2, t2, m)
    ensures MeshletBounds(positions, v2, t2, m) == MeshletBounds(positions, v1, t1, m)
  {
    assert ReferencedPositions(positions, v2, t2, m) == ReferencedPositions(positions, v1, t1, m);
  }

  /** The bounds loop of lines 302-313: a running `min`/`max` over every
      triangle corner of the meshlet, from `+FLT_MAX`/`-FLT_MAX`, turned into
      centre and half-extent. */
  method ComputeBounds(positions: seq<Float3>, vertices: seq<U32>, triangles: seq<Byte>, m: Meshlet) returns (b: Bounds<real>)
    requires Readable(positions, vertices, triangles, m)
    ensures b == MeshletBounds(positions, vertices, triangles, m)
  {
    ghost var ps := ReferencedPositions(positions, vertices, triangles, m);
    var mn := HighestFloat3;
    var mx := LowestFloat3;
    var k := 0;
    while k < m.triangleCount * 3
      invariant 0 <= k <= 3 * m.triangleCount
      invariant mn == FoldMin(HighestFloat3, ps[..k]) && mx == FoldMax(LowestFloat3, ps[..k])
    {
      var idx := vertices[m.vertexOffset + triangles[m.triangleOffset + k]];
      var p := positions[idx];
      assert ps[..k + 1][..k] == ps[..k];
      mx := Float3Max(mx, p);
      mn := Float3Min(mn, p);
      k := k + 1;
    }
    assert ps[..k] == ps;
    b := Bounds(Div(Add(mx, mn), 2.0), Div(Sub(mx, mn), 2.0));
  }

  /** The packing loop of lines 319-325: packed triangle `offset + t` gets
      the three local bytes of triangle `t` in its fields `v0`, `v1`, `v2`. */
  method PackTriangles(packed: array<PackedTriangle>, offset: nat, source: seq<Byte>, triangleCount: nat)
    requires |source| == 3 * triangleCount && offset + triangleCount <= packed.Length
    modifies packed
    ensures packed[..] == PackInto(old(packed[..]), offset, source, triangleCount)
  {
    var t := 0;
    while t < triangleCount
      invariant 0 <= t <= triangleCount
      invariant forall k :: 0 <= k < packed.Length ==>
        packed[k] == if offset <= k < offset + t
          then StoreTriangle(old(packed[k]), source[3 * (k - offset)], source[3 * (k - offset) + 1], source[3 * (k - offset) + 2])
          else old(packed[k])
    {
      packed[offset + t] := packed[offset + t].(v0 := source[3 * t]);
      packed[offset + t] := packed[offset + t].(v1 := source[3 * t + 1]);
      packed[offset + t] := packed[offset + t].(v2 := source[3 * t + 2]);
      t := t + 1;
    }
  }

  /** The output of meshoptimizer's `meshopt_buildMeshlets`: the worst-case
      meshlet, meshlet-vertex and triangle-byte buffers it filled, and the
      number of meshlets it produced. */
  datatype Clustering = Clustering(meshlets: seq<Meshlet>, vertices: seq<U32>, triangles: seq<Byte>, count: nat)

  /** The meshlets the clustering produced. */
  function Produced(c: Clustering): seq<Meshlet>
    requires c.count <= |c.meshlets|
  {
    c.meshlets[..c.count]
  }

  /** What the clustering promises, for a mesh of `vertexCount` vertices:
      the buffers have their worst-case sizes, at least one meshlet was
      produced, the produced meshlets are contiguous and fit the buffers
      (padding included), their local bytes name their own vertices and
      their vertices name existing positions. */
  ghost predicate WellClustered(c: Clustering, vertexCount: nat)
  {
    && 1 <= c.count <= |c.meshlets|
    && |c.vertices| == |c.meshlets| * MaxVertices
    && |c.triangles| == |c.meshlets| * MaxTriangles * 3
    && Contiguous(Produced(c))
    && c.meshlets[c.count - 1].triangleOffset + PaddedSpan(c.meshlets[c.count - 1].triangleCount) <= |c.triangles|
    && c.meshlets[c.count - 1].vertexOffset + c.meshlets[c.count - 1].vertexCount < TwoTo32
    && c.meshlets[c.count - 1].triangleOffset + PaddedSpan(c.meshlets[c.count - 1].triangleCount) < TwoTo32
    && forall i :: 0 <= i < c.count ==> ClusterValid(c, i, vertexCount)
  }

  /** Meshlet `i` of the clustering lies within the buffers, its local
      triangle bytes are below its vertex count and its vertices are below
      `vertexCount`. */
  ghost predicate ClusterValid(c: Clustering, i: nat, vertexCount: nat)
    requires i < |c.meshlets|
  {
    var m := c.meshlets[i];
    && m.vertexOffset + m.vertexCount <= |c.vertices|
    && m.triangleOffset + 3 * m.triangleCount <= |c.triangles|
    && (forall k :: m.triangleOffset <= k < m.triangleOffset + 3 * m.triangleCount ==> c.triangles[k] < m.vertexCount)
    && (forall p :: m.vertexOffset <= p < m.vertexOffset + m.vertexCount ==> c.vertices[p] < vertexCount)
  }

  /** meshoptimizer's `meshopt_optimizeMeshlet`, run in place on one
      meshlet's vertex list and triangle bytes. */
  type MeshletOptimizer = (seq<U32>, seq<Byte>) -> (seq<U32>, seq<Byte>)

  /** The spans of meshlet `m` in the two buffers. */
  function VertexSpan(vertices: seq<U32>, m: Meshlet): seq<U32>
    requires m.vertexOffset + m.vertexCount <= |vertices|
  {
    vertices[m.vertexOffset .. m.vertexOffset + m.vertexCount]
  }

  function TriangleSpan(triangles: seq<Byte>, m: Meshlet): seq<Byte>
    requires m.triangleOffset + 3 * m.triangleCount <= |triangles|
  {
    triangles[m.triangleOffset .. m.triangleOffset + 3 * m.triangleCount]
  }

  /** What the per-meshlet optimiser promises for meshlet `i`: it returns
      lists of the same lengths, the vertex list rearranged and the bytes
      still local to the meshlet. */
  predicate OptimizesWithin(optimize: MeshletOptimizer, c: Clustering, i: nat)
  {
    && i < c.count <= |c.meshlets|
    && c.meshlets[i].vertexOffset + c.meshlets[i].vertexCount <= |c.vertices|
    && c.meshlets[i].triangleOffset + 3 * c.meshlets[i].triangleCount <= |c.triangles|
    && var vs := VertexSpan(c.vertices, c.meshlets[i]);
       var r := optimize(vs, TriangleSpan(c.triangles, c.meshlets[i]));
       && |r.0| == |vs| && |r.1| == 3 * c.meshlets[i].triangleCount
       && multiset(r.0) == multiset(vs)
       && (forall k :: 0 <= k < |r.1| ==> r.1[k] < |vs|)
  }

  /** The optimised vertex list and triangle bytes of meshlet `i`. */
  function Optimized(optimize: MeshletOptimizer, c: Clustering, i: nat): (seq<U32>, seq<Byte>)
    requires OptimizesWithin(optimize, c, i)
  {
    optimize(VertexSpan(c.vertices, c.meshlets[i]), TriangleSpan(c.triangles, c.meshlets[i]))
  }

  /** `buffer[offset ..]` starts with `span`. */
  predicate SpanAt<T(==)>(buffer: seq<T>, offset: nat, span: seq<T>)
  {
    offset + |span| <= |buffer| && forall p :: offset <= p < offset + |span| ==> buffer[p] == span[p - offset]
  }

  /** The packed triangles from `start` on hold `bytes`, three per word,
      with clear padding. */
  predicate PackedAt(triangles: seq<PackedTriangle>, start: nat, count: nat, bytes: seq<Byte>)
  {
    && |bytes| == 3 * count && start + count <= |triangles|
    && forall k :: start <= k < start + count ==>
         triangles[k] == PackedTriangle(bytes[3 * (k - start)], bytes[3 * (k - start) + 1], bytes[3 * (k - start) + 2], 0)
  }

  /** The four meshlet buffers of a converted primitive. */
  datatype MeshletData = MeshletData(meshlets: seq<Meshlet>, bounds: seq<Bounds<real>>, triangles: seq<PackedTriangle>, vertices: seq<U32>)

  /** `buffer` with `span` written over it from `offset` on. */
  function Splice<T>(buffer: seq<T>, offset: nat, span: seq<T>): (r: seq<T>)
    requires offset + |span| <= |buffer|
    ensures |r| == |buffer|
    ensures forall p :: 0 <= p < |r| ==> r[p] == if offset <= p < offset + |span| then span[p - offset] else buffer[p]
  {
    buffer[..offset] + span + buffer[offset + |span|..]
  }

  /** `ps` with the triangles of `source` stored, three bytes each, into
      the fields `v0`, `v1`, `v2` of the words from `offset` on; their
      padding and every other word are kept. */
  function PackInto(ps: seq<PackedTriangle>, offset: nat, source: seq<Byte>, count: nat): (r: seq<PackedTriangle>)
    requires |source| == 3 * count
    ensures |r| == |ps|
  {
    seq(|ps|, k requires 0 <= k < |ps| =>
      if offset <= k < offset + count
      then StoreTriangle(ps[k], source[3 * (k - offset)], source[3 * (k - offset) + 1], source[3 * (k - offset) + 2])
      else ps[k])
  }

  /** The per-meshlet optimiser keeps its promises for every produced
      meshlet. */
  ghost predicate Optimizable(optimize: MeshletOptimizer, c: Clustering)
  {
    c.count <= |c.meshlets| && forall j :: 0 <= j < c.count ==> OptimizesWithin(optimize, c, j)
  }

  /** The meshlet vertex buffer after the loop has processed the first `i`
      meshlets: each one's optimised vertex list written over its span. */
  ghost function VerticesAfter(optimize: MeshletOptimizer, c: Clustering, i: nat): (vs: seq<U32>)
    requires i <= c.count && Optimizable(optimize, c)
    ensures |vs| == |c.vertices|
  {
    if i == 0 then c.vertices
    else
      assert OptimizesWithin(optimize, c, i - 1);
      Splice(VerticesAfter(optimize, c, i - 1), c.meshlets[i - 1].vertexOffset, Optimized(optimize, c, i - 1).0)
  }

  /** The triangle-byte buffer after the first `i` meshlets. */
  ghost function TrianglesAfter(optimize: MeshletOptimizer, c: Clustering, i: nat): (ts: seq<Byte>)
    requires i <= c.count && Optimizable(optimize, c)
    ensures |ts| == |c.triangles|
  {
    if i == 0 then c.triangles
    else
      assert OptimizesWithin(optimize, c, i - 1);
      Splice(TrianglesAfter(optimize, c, i - 1), c.meshlets[i - 1].triangleOffset, Optimized(optimize, c, i - 1).1)
  }

  /** The `n` packed triangles, zeroed by `init`, after the first `i`
      meshlets: each one's optimised bytes packed from its running offset. */
  ghost function PackedAfter(optimize: MeshletOptimizer, c: Clustering, i: nat, n: nat): (ps: seq<PackedTriangle>)
    requires i <= c.count && Optimizable(optimize, c)
    ensures |ps| == n
  {
    if i == 0 then seq(n, _ => ZeroTriangle)
    else
      assert OptimizesWithin(optimize, c, i - 1);
      PackInto(PackedAfter(optimize, c, i - 1, n), TriangleStart(Produced(c), i - 1), Optimized(optimize, c, i - 1).1,
               c.meshlets[i - 1].triangleCount)
  }

  /** Meshlet `i`'s vertex span, and everything after it, is as the
      clustering left it until the loop reaches meshlet `i`. */
  lemma {:induction false} VerticesAfterUntouched(optimize: MeshletOptimizer, c: Clustering, i: nat)
    requires Optimizable(optimize, c) && Contiguous(Produced(c)) && i < c.count
    ensures forall p :: c.meshlets[i].vertexOffset <= p < |c.vertices| ==> VerticesAfter(optimize, c, i)[p] == c.vertices[p]
  {
    if i > 0 {
      VerticesAfterUntouched(optimize, c, i - 1);
      var ms := Produced(c);
      assert Placed(ms, i) && Placed(ms, i - 1);
      assert ms[i].vertexOffset == ms[i - 1].vertexOffset + ms[i - 1].vertexCount;
      assert OptimizesWithin(optimize, c, i - 1);
    }
  }

  /** The same for the triangle bytes. */
  lemma {:induction false} TrianglesAfterUntouched(optimize: MeshletOptimizer, c: Clustering, i: nat)
    requires Optimizable(optimize, c) && Contiguous(Produced(c)) && i < c.count
    ensures forall k :: c.meshlets[i].triangleOffset <= k < |c.triangles| ==> TrianglesAfter(optimize, c, i)[k] == c.triangles[k]
  {
    if i > 0 {
      TrianglesAfterUntouched(optimize, c, i - 1);
      var ms := Produced(c);
      assert Placed(ms, i) && Placed(ms, i - 1);
      assert ms[i].triangleOffset == ms[i - 1].triangleOffset + PaddedSpan(ms[i - 1].triangleCount);
      assert OptimizesWithin(optimize, c, i - 1);
    }
  }

  /** The packed triangles from meshlet `i`'s running offset on are still
      zero until the loop reaches meshlet `i`. */
  lemma {:induction false} PackedAfterUntouched(optimize: MeshletOptimizer, c: Clustering, i: nat, n: nat)
    requires Optimizable(optimize, c) && i <= c.count
    ensures forall k :: TriangleStart(Produced(c), i) <= k < n ==> PackedAfter(optimize, c, i, n)[k] == ZeroTriangle
  {
    if i > 0 {
      PackedAfterUntouched(optimize, c, i - 1, n);
      assert OptimizesWithin(optimize, c, i - 1);
      assert Produced(c)[i - 1] == c.meshlets[i - 1];
    }
  }

  /** A span written over a buffer is in place. */
  lemma SpliceAt<T>(buffer: seq<T>, offset: nat, span: seq<T>)
    requires offset + |span| <= |buffer|
    ensures SpanAt(Splice(buffer, offset, span), offset, span)
  {
  }

  /** Writing over a buffer keeps the spans it does not overlap. */
  lemma SpliceKeeps<T>(buffer: seq<T>, offset: nat, span: seq<T>, start: nat, kept: seq<T>)
    requires offset + |span| <= |buffer| && SpanAt(buffer, start, kept)
    requires start + |kept| <= offset || offset + |span| <= start
    ensures SpanAt(Splice(buffer, offset, span), start, kept)
  {
  }

  /** Packing into zeroed words leaves exactly the source's triangles with
      clear padding. */
  lemma PackIntoZeros(ps: seq<PackedTriangle>, offset: nat, source: seq<Byte>, count: nat)
    requires |source| == 3 * count && offset + count <= |ps|
    requires forall k :: offset <= k < offset + count ==> ps[k] == ZeroTriangle
    ensures PackedAt(PackInto(ps, offset, source, count), offset, count, source)
  {
  }

  /** Packing keeps the packed triangles it does not overlap. */
  lemma PackIntoKeeps(ps: seq<PackedTriangle>, offset: nat, source: seq<Byte>, count: nat,
                      start: nat, keptCount: nat, bytes: seq<Byte>)
    requires |source| == 3 * count && PackedAt(ps, start, keptCount, bytes)
    requires start + keptCount <= offset
    ensures PackedAt(PackInto(ps, offset, source, count), start, keptCount, bytes)
  {
  }

  /** Once the loop has passed meshlet `j`, its optimised vertex list stays
      in place: the later meshlets' spans lie after it. */
  lemma {:induction false} VerticesAfterDone(optimize: MeshletOptimizer, c: Clustering, i: nat, j: nat)
    requires Optimizable(optimize, c) && Contiguous(Produced(c)) && j < i <= c.count
    ensures OptimizesWithin(optimize, c, j)
    ensures SpanAt(VerticesAfter(optimize, c, i), c.meshlets[j].vertexOffset, Optimized(optimize, c, j).0)
  {
    assert OptimizesWithin(optimize, c, j) && OptimizesWithin(optimize, c, i - 1);
    var before := VerticesAfter(optimize, c, i - 1);
    if j < i - 1 {
      VerticesAfterDone(optimize, c, i - 1, j);
      ContiguousOrdered(Produced(c), j, i - 1);
      assert Produced(c)[j] == c.meshlets[j] && Produced(c)[i - 1] == c.meshlets[i - 1];
      SpliceKeeps(before, c.meshlets[i - 1].vertexOffset, Optimized(optimize, c, i - 1).0,
                  c.meshlets[j].vertexOffset, Optimized(optimize, c, j).0);
    } else {
      SpliceAt(before, c.meshlets[j].vertexOffset, Optimized(optimize, c, j).0);
    }
  }

  /** Once the loop has passed meshlet `j`, its packed triangles stay in
      place with clear padding: the later meshlets pack after them. */
  lemma {:induction false} PackedAfterDone(optimize: MeshletOptimizer, c: Clustering, i: nat, j: nat, n: nat)
    requires Optimizable(optimize, c) && Contiguous(Produced(c)) && j < i <= c.count
    requires TriangleStart(Produced(c), c.count) <= n
    ensures OptimizesWithin(optimize, c, j)
    ensures PackedAt(PackedAfter(optimize, c, i, n), TriangleStart(Produced(c), j), c.meshlets[j].triangleCount, Optimized(optimize, c, j).1)
  {
    if j < i - 1 {
      PackedAfterDone(optimize, c, i - 1, j, n);
      PackedAfterKeep(optimize, c, i, j, n);
    } else {
      PackedAfterFresh(optimize, c, j, n);
    }
  }

  /** Meshlet `j`'s triangles land on the zeroed triangles from its start. */
  lemma PackedAfterFresh(optimize: MeshletOptimizer, c: Clustering, j: nat, n: nat)
    requires Optimizable(optimize, c) && Contiguous(Produced(c)) && j < c.count
    requires TriangleStart(Produced(c), c.count) <= n
    ensures OptimizesWithin(optimize, c, j)
    ensures PackedAt(PackedAfter(optimize, c, j + 1, n), TriangleStart(Produced(c), j), c.meshlets[j].triangleCount, Optimized(optimize, c, j).1)
  {
    var ms := Produced(c);
    assert OptimizesWithin(optimize, c, j);
    assert ms[j] == c.meshlets[j];
    TriangleStartBelowTotal(ms, j);
    PackedAfterUntouched(optimize, c, j, n);
    PackIntoZeros(PackedAfter(optimize, c, j, n), TriangleStart(ms, j), Optimized(optimize, c, j).1, ms[j].triangleCount);
  }

  /** Packing meshlet `i - 1` leaves an earlier meshlet's triangles alone. */
  lemma PackedAfterKeep(optimize: MeshletOptimizer, c: Clustering, i: nat, j: nat, n: nat)
    requires Optimizable(optimize, c) && Contiguous(Produced(c)) && j < i - 1 && i <= c.count
    requires OptimizesWithin(optimize, c, j)
    requires PackedAt(PackedAfter(optimize, c, i - 1, n), TriangleStart(Produced(c), j), c.meshlets[j].triangleCount, Optimized(optimize, c, j).1)
    ensures PackedAt(PackedAfter(optimize, c, i, n), TriangleStart(Produced(c), j), c.meshlets[j].triangleCount, Optimized(optimize, c, j).1)
  {
    var ms := Produced(c);
    assert OptimizesWithin(optimize, c, i - 1);
    assert ms[j] == c.meshlets[j] && ms[i - 1] == c.meshlets[i - 1];
    ContiguousOrdered(ms, j, i - 1);
    PackIntoKeeps(PackedAfter(optimize, c, i - 1, n), TriangleStart(ms, i - 1), Optimized(optimize, c, i - 1).1,
                  ms[i - 1].triangleCount, TriangleStart(ms, j), ms[j].triangleCount, Optimized(optimize, c, j).1);
  }

  /** One iteration of the loop of lines 299-333, for meshlet `m`: its bounds
      from its spans as they stand, the optimiser run in place on the spans,
      its triangles packed from `triangleOffset`, and its output record. */
  method ConvertMeshlet(positions: seq<Float3>, m: Meshlet, optimize: MeshletOptimizer,
                        vertices: array<U32>, triangles: array<Byte>, packed: array<PackedTriangle>, triangleOffset: U32)
    returns (b: Bounds<real>, out: Meshlet)
    requires Readable(positions, vertices[..], triangles[..], m)
    requires var r := optimize(VertexSpan(vertices[..], m), TriangleSpan(triangles[..], m));
      |r.0| == m.vertexCount && |r.1| == 3 * m.triangleCount
    requires triangleOffset + m.triangleCount <= packed.Length
    modifies vertices, triangles, packed
    ensures var r := optimize(VertexSpan(old(vertices[..]), m), TriangleSpan(old(triangles[..]), m));
      && b == MeshletBounds(positions, old(vertices[..]), old(triangles[..]), m)
      && vertices[..] == Splice(old(vertices[..]), m.vertexOffset, r.0)
      && triangles[..] == Splice(old(triangles[..]), m.triangleOffset, r.1)
      && packed[..] == PackInto(old(packed[..]), triangleOffset, r.1, m.triangleCount)
    ensures out == Meshlet(m.vertexOffset, triangleOffset, m.vertexCount, m.triangleCount)
  {
    b := ComputeBounds(positions, vertices[..], triangles[..], m);

    // meshopt_optimizeMeshlet, in place on the meshlet's two spans.
    ghost var v0, t0 := vertices[..], triangles[..];
    var r := optimize(VertexSpan(vertices[..], m), TriangleSpan(triangles[..], m));
    forall p | 0 <= p < m.vertexCount {
      vertices[m.vertexOffset + p] := r.0[p];
    }
    forall k | 0 <= k < 3 * m.triangleCount {
      triangles[m.triangleOffset + k] := r.1[k];
    }
    assert vertices[..] == Splice(v0, m.vertexOffset, r.0);
    assert triangles[..] == Splice(t0, m.triangleOffset, r.1);

    // The packing loop, from the running offset.
    PackTriangles(packed, triangleOffset, r.1, m.triangleCount);
    out := Meshlet(m.vertexOffset, triangleOffset, m.vertexCount, m.triangleCount);
  }

  /** What the loop over the meshlets needs of the clustering. */
  ghost predicate Convertible(positions: seq<Float3>, c: Clustering, optimize: MeshletOptimizer)
  {
    && 1 <= c.count <= |c.meshlets|
    && TriangleStart(Produced(c), c.count) < TwoTo32
    && c.meshlets[c.count - 1].vertexOffset + c.meshlets[c.count - 1].vertexCount < TwoTo32
    && Optimizable(optimize, c)
    && forall i :: 0 <= i < c.count ==> Clustered(positions, c, i)
  }

  /** Meshlet `i` sits where the clustering places it and can be read. */
  ghost predicate Clustered(positions: seq<Float3>, c: Clustering, i: nat)
    requires i < c.count <= |c.meshlets|
  {
    Placed(Produced(c), i) && MeshletReadable(positions, c, i)
  }

  /** The meshlets of a convertible clustering lie back to back. */
  lemma ConvertibleContiguous(positions: seq<Float3>, c: Clustering, optimize: MeshletOptimizer)
    requires Convertible(positions, c, optimize)
    ensures Contiguous(Produced(c))
  {
    forall i | 0 <= i < c.count
      ensures Placed(Produced(c), i)
    {
      assert Clustered(positions, c, i);
    }
  }

  /** Meshlet `i` of the clustering can be read. */
  ghost predicate MeshletReadable(positions: seq<Float3>, c: Clustering, i: nat)
  {
    i < |c.meshlets| && Readable(positions, c.vertices, c.triangles, c.meshlets[i])
  }

  /** Meshlet `i` of a clustering can be read. */
  lemma ClusteredReadable(positions: seq<Float3>, c: Clustering, i: nat)
    requires WellClustered(c, |positions|) && i < c.count
    ensures MeshletReadable(positions, c, i)
  {
    assert ClusterValid(c, i, |positions|);
  }

  /** A clustering that keeps its promises, with an optimiser that keeps
      its own, can be converted. */
  lemma WellClusteredConvertible(positions: seq<Float3>, c: Clustering, optimize: MeshletOptimizer)
    requires WellClustered(c, |positions|) && Optimizable(optimize, c)
    ensures Convertible(positions, c, optimize)
  {
    assert Produced(c)[c.count - 1] == c.meshlets[c.count - 1];
    TotalTrianglesFit(Produced(c));
    forall i | 0 <= i < c.count
      ensures Clustered(positions, c, i)
    {
      ClusteredReadable(positions, c, i);
      assert Contiguous(Produced(c)) && Placed(Produced(c), i);
    }
  }

  /** The running offset after meshlet `i` does not wrap around. */
  lemma StepOffset(ms: seq<Meshlet>, i: nat)
    requires i < |ms| && TriangleStart(ms, |ms|) < TwoTo32
    ensures TriangleStart(ms, i + 1) == TriangleStart(ms, i) + ms[i].triangleCount <= TriangleStart(ms, |ms|)
    ensures TriangleStart(ms, i + 1) < TwoTo32
  {
    TriangleStartBelowTotal(ms, i);
  }

  /** When the loop reaches meshlet `i`, its spans still hold what the
      clustering wrote: they can be read, give the clustering's bounds, and
      the optimiser sees the clustering's lists. */
  lemma StepReady(positions: seq<Float3>, c: Clustering, optimize: MeshletOptimizer, i: nat)
    requires Convertible(positions, c, optimize) && i < c.count
    ensures var m := c.meshlets[i];
      var vs := VerticesAfter(optimize, c, i);
      var ts := TrianglesAfter(optimize, c, i);
      && MeshletReadable(positions, c, i) && OptimizesWithin(optimize, c, i)
      && Readable(positions, vs, ts, m)
      && MeshletBounds(positions, vs, ts, m) == MeshletBounds(positions, c.vertices, c.triangles, m)
      && optimize(VertexSpan(vs, m), TriangleSpan(ts, m)) == Optimized(optimize, c, i)
      && |Optimized(optimize, c, i).0| == m.vertexCount && |Optimized(optimize, c, i).1| == 3 * m.triangleCount
  {
    var m := c.meshlets[i];
    var vs := VerticesAfter(optimize, c, i);
    var ts := TrianglesAfter(optimize, c, i);
    assert OptimizesWithin(optimize, c, i) && Clustered(positions, c, i);
    ConvertibleContiguous(positions, c, optimize);
    CurrentVertexSpan(optimize, c, i);
    CurrentTriangleSpan(optimize, c, i);
    MeshletBoundsLocal(positions, c.vertices, c.triangles, vs, ts, m);
  }

  /** When the loop reaches meshlet `i`, its vertex span is the clustering's. */
  lemma CurrentVertexSpan(optimize: MeshletOptimizer, c: Clustering, i: nat)
    requires Optimizable(optimize, c) && Contiguous(Produced(c)) && i < c.count
    requires c.meshlets[i].vertexOffset + c.meshlets[i].vertexCount <= |c.vertices|
    ensures VertexSpan(VerticesAfter(optimize, c, i), c.meshlets[i]) == VertexSpan(c.vertices, c.meshlets[i])
    ensures forall p :: c.meshlets[i].vertexOffset <= p < |c.vertices| ==> VerticesAfter(optimize, c, i)[p] == c.vertices[p]
  {
    VerticesAfterUntouched(optimize, c, i);
  }

  /** When the loop reaches meshlet `i`, its triangle span is the clustering's. */
  lemma CurrentTriangleSpan(optimize: MeshletOptimizer, c: Clustering, i: nat)
    requires Optimizable(optimize, c) && Contiguous(Produced(c)) && i < c.count
    requires c.meshlets[i].triangleOffset + 3 * c.meshlets[i].triangleCount <= |c.triangles|
    ensures TriangleSpan(TrianglesAfter(optimize, c, i), c.meshlets[i]) == TriangleSpan(c.triangles, c.meshlets[i])
    ensures forall k :: c.meshlets[i].triangleOffset <= k < |c.triangles| ==> TrianglesAfter(optimize, c, i)[k] == c.triangles[k]
  {
    TrianglesAfterUntouched(optimize, c, i);
  }

  /** One iteration of the loop of lines 299-333, for meshlet `i`, on the
      three buffers it changes: they go from their state after `i` meshlets
      to their state after `i + 1`; the bounds are the clustering's and the
      running offset advances by the meshlet's triangles. */
  method ConvertStep(positions: seq<Float3>, c: Clustering, optimize: MeshletOptimizer, i: nat, m: Meshlet,
                     vertices: array<U32>, triangles: array<Byte>, packed: array<PackedTriangle>, triangleOffset: U32)
    returns (b: Bounds<real>, out: Meshlet, nextOffset: U32)
    requires Convertible(positions, c, optimize)
    requires i < c.count && m == c.meshlets[i] && triangleOffset == TriangleStart(Produced(c), i)
    requires TriangleStart(Produced(c), c.count) <= packed.Length
    requires vertices[..] == VerticesAfter(optimize, c, i)
    requires triangles[..] == TrianglesAfter(optimize, c, i)
    requires packed[..] == PackedAfter(optimize, c, i, packed.Length)
    modifies vertices, triangles, packed
    ensures vertices[..] == VerticesAfter(optimize, c, i + 1)
    ensures triangles[..] == TrianglesAfter(optimize, c, i + 1)
    ensures packed[..] == PackedAfter(optimize, c, i + 1, packed.Length)
    ensures Readable(positions, c.vertices, c.triangles, m) && b == MeshletBounds(positions, c.vertices, c.triangles, m)
    ensures out.vertexOffset == m.vertexOffset && out.vertexCount == m.vertexCount
    ensures out.triangleOffset == triangleOffset && out.triangleCount == m.triangleCount
    ensures nextOffset == TriangleStart(Produced(c), i + 1)
  {
    StepReady(positions, c, optimize, i);
    // The running offset is a value: its update does not depend on the buffers.
    StepOffset(Produced(c), i);
    assert Produced(c)[i] == m;
    nextOffset := AddU32(triangleOffset, m.triangleCount);
    b, out := ConvertMeshlet(positions, m, optimize, vertices, triangles, packed, triangleOffset);
  }

  /** Meshlet `j`'s bounds are recorded, computed from its unoptimised spans. */
  ghost predicate BoundsDone(positions: seq<Float3>, c: Clustering, j: nat, bs: seq<Bounds<real>>)
  {
    && j < c.count <= |c.meshlets| && j < |bs|
    && Readable(positions, c.vertices, c.triangles, c.meshlets[j])
    && bs[j] == MeshletBounds(positions, c.vertices, c.triangles, c.meshlets[j])
  }

  /** Meshlet `j`'s output record: the clustering's, with its triangle
      offset counted in packed triangles. */
  ghost predicate MeshletDone(c: Clustering, j: nat, os: seq<Meshlet>)
  {
    && j < c.count <= |c.meshlets| && j < |os|
    && os[j].vertexOffset == c.meshlets[j].vertexOffset && os[j].vertexCount == c.meshlets[j].vertexCount
    && os[j].triangleOffset == TriangleStart(Produced(c), j) && os[j].triangleCount == c.meshlets[j].triangleCount
  }

  /** The bounds of the first `i` meshlets. */
  ghost predicate BoundsProgress(positions: seq<Float3>, c: Clustering, i: nat, bs: seq<Bounds<real>>)
  {
    && i <= c.count <= |c.meshlets| && c.count <= |bs|
    && forall j :: 0 <= j < i ==> BoundsDone(positions, c, j, bs)
  }

  /** The output records of the first `i` meshlets. */
  ghost predicate MeshletsProgress(c: Clustering, i: nat, os: seq<Meshlet>)
  {
    && i <= c.count <= |c.meshlets| && c.count <= |os|
    && forall j :: 0 <= j < i ==> MeshletDone(c, j, os)
  }

  lemma BoundsStep(positions: seq<Float3>, c: Clustering, i: nat, bs: seq<Bounds<real>>, b: Bounds<real>)
    requires BoundsProgress(positions, c, i, bs) && i < c.count
    requires Readable(positions, c.vertices, c.triangles, c.meshlets[i])
    requires b == MeshletBounds(positions, c.vertices, c.triangles, c.meshlets[i])
    ensures BoundsProgress(positions, c, i + 1, bs[i := b])
  {
    var bs' := bs[i := b];
    forall j | 0 <= j < i + 1
      ensures BoundsDone(positions, c, j, bs')
    {
      if j < i {
        assert BoundsDone(positions, c, j, bs);
      }
    }
  }

  lemma MeshletsStep(c: Clustering, i: nat, os: seq<Meshlet>, o: Meshlet)
    requires MeshletsProgress(c, i, os) && i < c.count
    requires o.vertexOffset == c.meshlets[i].vertexOffset && o.vertexCount == c.meshlets[i].vertexCount
    requires o.triangleOffset == TriangleStart(Produced(c), i) && o.triangleCount == c.meshlets[i].triangleCount
    ensures MeshletsProgress(c, i + 1, os[i := o])
  {
    var os' := os[i := o];
    forall j | 0 <= j < i + 1
      ensures MeshletDone(c, j, os')
    {
      if j < i {
        assert MeshletDone(c, j, os);
      }
    }
  }

  /** The writes of lines 311-313 and 327-331: meshlet `i`'s bounds and
      output record. */
  method RecordMeshlet(positions: seq<Float3>, c: Clustering, i: nat, b: Bounds<real>, o: Meshlet,
                       bounds: array<Bounds<real>>, outMeshlets: array<Meshlet>)
    requires BoundsProgress(positions, c, i, bounds[..]) && MeshletsProgress(c, i, outMeshlets[..]) && i < c.count
    requires Readable(positions, c.vertices, c.triangles, c.meshlets[i])
    requires b == MeshletBounds(positions, c.vertices, c.triangles, c.meshlets[i])
    requires o.vertexOffset == c.meshlets[i].vertexOffset && o.vertexCount == c.meshlets[i].vertexCount
    requires o.triangleOffset == TriangleStart(Produced(c), i) && o.triangleCount == c.meshlets[i].triangleCount
    modifies bounds, outMeshlets
    ensures bounds[..] == old(bounds[..])[i := b] && outMeshlets[..] == old(outMeshlets[..])[i := o]
    ensures BoundsProgress(positions, c, i + 1, bounds[..]) && MeshletsProgress(c, i + 1, outMeshlets[..])
  {
    ghost var bs, os := bounds[..], outMeshlets[..];
    BoundsStep(positions, c, i, bs, b);
    MeshletsStep(c, i, os, o);
    bounds[i] := b;
    assert bounds[..] == bs[i := b];
    outMeshlets[i] := o;
    assert outMeshlets[..] == os[i := o];
  }

  method ConvertIteration(positions: seq<Float3>, c: Clustering, optimize: MeshletOptimizer, i: nat, m: Meshlet,
                     vertices: array<U32>, triangles: array<Byte>, packed: array<PackedTriangle>,
                     bounds: array<Bounds<real>>, outMeshlets: array<Meshlet>, triangleOffset: U32)
    returns (nextOffset: U32)
    requires Convertible(positions, c, optimize)
    requires i < c.count && m == c.meshlets[i] && triangleOffset == TriangleStart(Produced(c), i)
    requires TriangleStart(Produced(c), c.count) <= packed.Length
    requires vertices[..] == VerticesAfter(optimize, c, i)
    requires triangles[..] == TrianglesAfter(optimize, c, i)
    requires packed[..] == PackedAfter(optimize, c, i, packed.Length)
    requires BoundsProgress(positions, c, i, bounds[..])
    requires MeshletsProgress(c, i, outMeshlets[..])
    modifies vertices, triangles, packed, bounds, outMeshlets
    ensures vertices[..] == VerticesAfter(optimize, c, i + 1)
    ensures triangles[..] == TrianglesAfter(optimize, c, i + 1)
    ensures packed[..] == PackedAfter(optimize, c, i + 1, packed.Length)
    ensures BoundsProgress(positions, c, i + 1, bounds[..])
    ensures MeshletsProgress(c, i + 1, outMeshlets[..])
    ensures nextOffset == TriangleStart(Produced(c), i + 1)
  {
    var b, o;
    b, o, nextOffset := ConvertStep(positions, c, optimize, i, m, vertices, triangles, packed, triangleOffset);
    RecordMeshlet(positions, c, i, b, o, bounds, outMeshlets);
  }

  /** Before the loop the packed buffer is all zero. */
  lemma PackedAfterStart(optimize: MeshletOptimizer, c: Clustering, ps: seq<PackedTriangle>)
    requires Optimizable(optimize, c)
    requires forall k :: 0 <= k < |ps| ==> ps[k] == ZeroTriangle
    ensures ps == PackedAfter(optimize, c, 0, |ps|)
  {
  }

  /** The loop of lines 298-333 over the trimmed buffers, returning the
      final running offset. */
  method ConvertMeshlets(positions: seq<Float3>, c: Clustering, optimize: MeshletOptimizer,
                         vertices: array<U32>, triangles: array<Byte>,
                         packed: array<PackedTriangle>, bounds: array<Bounds<real>>, outMeshlets: array<Meshlet>)
    returns (triangleOffset: U32)
    requires Convertible(positions, c, optimize)
    requires vertices[..] == c.vertices && triangles[..] == c.triangles
    requires TriangleStart(Produced(c), c.count) <= packed.Length
    requires forall k :: 0 <= k < packed.Length ==> packed[k] == ZeroTriangle
    requires c.count <= bounds.Length && c.count <= outMeshlets.Length
    modifies vertices, triangles, packed, bounds, outMeshlets
    ensures triangleOffset == TriangleStart(Produced(c), c.count)
    ensures vertices[..] == VerticesAfter(optimize, c, c.count)
    ensures packed[..] == PackedAfter(optimize, c, c.count, packed.Length)
    ensures BoundsProgress(positions, c, c.count, bounds[..])
    ensures MeshletsProgress(c, c.count, outMeshlets[..])
  {
    PackedAfterStart(optimize, c, packed[..]);
    triangleOffset := 0;
    var i := 0;
    while i < c.count
      invariant 0 <= i <= c.count
      invariant triangleOffset == TriangleStart(Produced(c), i)
      invariant vertices[..] == VerticesAfter(optimize, c, i)
      invariant triangles[..] == TrianglesAfter(optimize, c, i)
      invariant packed[..] == PackedAfter(optimize, c, i, packed.Length)
      invariant BoundsProgress(positions, c, i, bounds[..])
      invariant MeshletsProgress(c, i, outMeshlets[..])
    {
      triangleOffset := ConvertIteration(positions, c, optimize, i, c.meshlets[i], vertices, triangles, packed, bounds, outMeshlets, triangleOffset);
      i := i + 1;
    }
  }

  /** A span that ends within a prefix is in the prefix too. */
  lemma SpanInPrefix<T>(buffer: seq<T>, n: nat, offset: nat, span: seq<T>)
    requires SpanAt(buffer, offset, span) && offset + |span| <= n <= |buffer|
    ensures SpanAt(buffer[..n], offset, span)
  {
  }

  /** Packed triangles that end within a prefix are in the prefix too. */
  lemma PackedInPrefix(triangles: seq<PackedTriangle>, n: nat, start: nat, count: nat, bytes: seq<Byte>)
    requires PackedAt(triangles, start, count, bytes) && start + count <= n <= |triangles|
    ensures PackedAt(triangles[..n], start, count, bytes)
  {
  }

  /** Meshlet `i` in the converted output: its record with the packed
      offset, its bounds from its unoptimised spans, and its optimised
      vertex list and packed triangles. */
  ghost predicate ConvertedMeshlet(positions: seq<Float3>, c: Clustering, optimize: MeshletOptimizer, out: MeshletData, i: nat)
    requires i < c.count <= |c.meshlets| && |out.meshlets| == c.count && |out.bounds| == c.count
  {
    && out.meshlets[i].vertexOffset == c.meshlets[i].vertexOffset
    && out.meshlets[i].vertexCount == c.meshlets[i].vertexCount
    && out.meshlets[i].triangleOffset == TriangleStart(Produced(c), i)
    && out.meshlets[i].triangleCount == c.meshlets[i].triangleCount
    && Readable(positions, c.vertices, c.triangles, c.meshlets[i])
    && out.bounds[i] == MeshletBounds(positions, c.vertices, c.triangles, c.meshlets[i])
    && OptimizesWithin(optimize, c, i)
    && SpanAt(out.vertices, c.meshlets[i].vertexOffset, Optimized(optimize, c, i).0)
    && PackedAt(out.triangles, TriangleStart(Produced(c), i), c.meshlets[i].triangleCount, Optimized(optimize, c, i).1)
  }

  /** The converted meshlets: one record and one box per produced meshlet,
      the vertex buffer up to the last meshlet's vertices and the packed
      buffer up to the final running offset. */
  ghost predicate Converted(positions: seq<Float3>, c: Clustering, optimize: MeshletOptimizer, out: MeshletData)
    requires 1 <= c.count <= |c.meshlets|
  {
    && |out.meshlets| == c.count && |out.bounds| == c.count
    && |out.vertices| == TrimmedVertexCount(c.meshlets[c.count - 1])
    && |out.triangles| == TriangleStart(Produced(c), c.count)
    && forall i :: 0 <= i < c.count ==> ConvertedMeshlet(positions, c, optimize, out, i)
  }

  /** The meshlet vertices kept by the trim: up to the end of the last
      meshlet's span, which lies within the clustering's buffer. */
  lemma TrimmedVerticesFit(positions: seq<Float3>, c: Clustering, optimize: MeshletOptimizer)
    requires Convertible(positions, c, optimize)
    ensures var last := c.meshlets[c.count - 1];
      TrimmedVertexCount(last) == last.vertexOffset + last.vertexCount <= |c.vertices|
  {
    assert OptimizesWithin(optimize, c, c.count - 1);
  }

  /** Meshlet `i`'s optimised vertex list in the trimmed vertex buffer. */
  lemma FinalVertices(positions: seq<Float3>, c: Clustering, optimize: MeshletOptimizer, vs: seq<U32>, i: nat)
    requires Convertible(positions, c, optimize) && i < c.count
    requires TrimmedVertexCount(c.meshlets[c.count - 1]) <= |c.vertices|
    requires vs == VerticesAfter(optimize, c, c.count)[..TrimmedVertexCount(c.meshlets[c.count - 1])]
    ensures OptimizesWithin(optimize, c, i)
    ensures SpanAt(vs, c.meshlets[i].vertexOffset, Optimized(optimize, c, i).0)
  {
    var ms := Produced(c);
    TrimmedVerticesFit(positions, c, optimize);
    ConvertibleContiguous(positions, c, optimize);
    VerticesAfterDone(optimize, c, c.count, i);
    assert Placed(ms, i);
    if i < c.count - 1 {
      ContiguousOrdered(ms, i, c.count - 1);
    }
    assert ms[i] == c.meshlets[i] && ms[c.count - 1] == c.meshlets[c.count - 1];
    SpanInPrefix(VerticesAfter(optimize, c, c.count), |vs|, c.meshlets[i].vertexOffset, Optimized(optimize, c, i).0);
  }

  /** Meshlet `i`'s packed triangles in the packed buffer cut at the final
      running offset. */
  lemma FinalPacked(positions: seq<Float3>, c: Clustering, optimize: MeshletOptimizer, n: nat,
                    ts: seq<PackedTriangle>, i: nat)
    requires Convertible(positions, c, optimize) && i < c.count
    requires TriangleStart(Produced(c), c.count) <= n
    requires ts == PackedAfter(optimize, c, c.count, n)[..TriangleStart(Produced(c), c.count)]
    ensures OptimizesWithin(optimize, c, i)
    ensures PackedAt(ts, TriangleStart(Produced(c), i), c.meshlets[i].triangleCount, Optimized(optimize, c, i).1)
  {
    var ms := Produced(c);
    ConvertibleContiguous(positions, c, optimize);
    PackedAfterDone(optimize, c, c.count, i, n);
    TriangleStartBelowTotal(ms, i);
    assert ms[i] == c.meshlets[i];
    PackedInPrefix(PackedAfter(optimize, c, c.count, n), |ts|, TriangleStart(ms, i), ms[i].triangleCount, Optimized(optimize, c, i).1);
  }

  /** Meshlet `i` read off the final buffers. */
  lemma FinalMeshlet(positions: seq<Float3>, c: Clustering, optimize: MeshletOptimizer, n: nat, out: MeshletData, i: nat)
    requires Convertible(positions, c, optimize) && i < c.count
    requires |out.meshlets| == c.count && |out.bounds| == c.count
    requires BoundsDone(positions, c, i, out.bounds) && MeshletDone(c, i, out.meshlets)
    requires TriangleStart(Produced(c), c.count) <= n
    requires TrimmedVertexCount(c.meshlets[c.count - 1]) <= |c.vertices|
    requires out.triangles == PackedAfter(optimize, c, c.count, n)[..TriangleStart(Produced(c), c.count)]
    requires out.vertices == VerticesAfter(optimize, c, c.count)[..TrimmedVertexCount(c.meshlets[c.count - 1])]
    ensures ConvertedMeshlet(positions, c, optimize, out, i)
  {
    FinalVertices(positions, c, optimize, out.vertices, i);
    FinalPacked(positions, c, optimize, n, out.triangles, i);
  }

  /** The buffers after the whole loop, trimmed, are the converted meshlets. */
  lemma FinalBuffers(positions: seq<Float3>, c: Clustering, optimize: MeshletOptimizer, n: nat, out: MeshletData)
    requires Convertible(positions, c, optimize)
    requires TriangleStart(Produced(c), c.count) <= n
    requires |out.meshlets| == c.count && |out.bounds| == c.count
    requires BoundsProgress(positions, c, c.count, out.bounds) && MeshletsProgress(c, c.count, out.meshlets)
    requires TrimmedVertexCount(c.meshlets[c.count - 1]) <= |c.vertices|
    requires out.triangles == PackedAfter(optimize, c, c.count, n)[..TriangleStart(Produced(c), c.count)]
    requires out.vertices == VerticesAfter(optimize, c, c.count)[..TrimmedVertexCount(c.meshlets[c.count - 1])]
    ensures Converted(positions, c, optimize, out)
  {
    TrimmedVerticesFit(positions, c, optimize);
    forall i | 0 <= i < c.count
      ensures ConvertedMeshlet(positions, c, optimize, out, i)
    {
      assert BoundsDone(positions, c, i, out.bounds) && MeshletDone(c, i, out.meshlets);
      FinalMeshlet(positions, c, optimize, n, out, i);
    }
  }

  /** The first `c.count` bounds and records keep their progress. */
  lemma ProgressPrefix(positions: seq<Float3>, c: Clustering, bs: seq<Bounds<real>>, os: seq<Meshlet>)
    requires BoundsProgress(positions, c, c.count, bs) && MeshletsProgress(c, c.count, os)
    ensures BoundsProgress(positions, c, c.count, bs[..c.count]) && MeshletsProgress(c, c.count, os[..c.count])
  {
    forall j | 0 <= j < c.count
      ensures BoundsDone(positions, c, j, bs[..c.count]) && MeshletDone(c, j, os[..c.count])
    {
      assert BoundsDone(positions, c, j, bs) && MeshletDone(c, j, os);
    }
  }

  /** meshoptimizer's `meshopt_buildMeshlets` writing its output into the
      worst-case buffers the converter allocated for it. */
  method StoreClustering(c: Clustering, meshlets: array<Meshlet>, vertices: array<U32>, triangles: array<Byte>)
    requires meshlets.Length == |c.meshlets| && vertices.Length == |c.vertices| && triangles.Length == |c.triangles|
    modifies meshlets, vertices, triangles
    ensures meshlets[..] == c.meshlets && vertices[..] == c.vertices && triangles[..] == c.triangles
  {
    forall k | 0 <= k < meshlets.Length {
      meshlets[k] := c.meshlets[k];
    }
    forall k | 0 <= k < vertices.Length {
      vertices[k] := c.vertices[k];
    }
    forall k | 0 <= k < triangles.Length {
      triangles[k] := c.triangles[k];
    }
  }

  /** Lines 276-294: the worst-case buffers are allocated and filled by
      the clustering, then trimmed to the produced meshlets: the meshlet
      list to the meshlet count, the two byte and vertex buffers to the end
      of the last meshlet. The storage is not reallocated. */
  method ClusterAndTrim(c: Clustering)
    returns (outMeshlets: FixedArray<Meshlet>, meshletVertices: FixedArray<U32>,
             meshletTriangles: FixedArray<Byte>, meshlets: FixedArray<Meshlet>)
    requires 1 <= c.count <= |c.meshlets|
    requires |c.vertices| == |c.meshlets| * MaxVertices && |c.triangles| == |c.meshlets| * MaxTriangles * 3
    requires TrimmedTriangleBytes(c.meshlets[c.count - 1]) <= |c.triangles|
    requires TrimmedVertexCount(c.meshlets[c.count - 1]) <= |c.vertices|
    ensures fresh(outMeshlets) && fresh(meshletVertices) && fresh(meshletTriangles) && fresh(meshlets)
    ensures outMeshlets != meshlets
    ensures outMeshlets.Valid() && outMeshlets.data != null && fresh(outMeshlets.data)
    ensures outMeshlets.count == c.count && outMeshlets.data.Length == |c.meshlets|
    ensures meshletVertices.Valid() && meshletVertices.data != null && fresh(meshletVertices.data)
    ensures meshletVertices.data[..] == c.vertices && meshletVertices.count == TrimmedVertexCount(c.meshlets[c.count - 1])
    ensures meshletTriangles.Valid() && meshletTriangles.data != null && fresh(meshletTriangles.data)
    ensures meshletTriangles.data[..] == c.triangles && meshletTriangles.count == TrimmedTriangleBytes(c.meshlets[c.count - 1])
    ensures meshlets.Valid() && meshlets.data != null && meshlets.Contents() == Produced(c)
  {
    var maxMeshlets := |c.meshlets|;
    outMeshlets := new FixedArray<Meshlet>();
    outMeshlets.Init(maxMeshlets, ZeroMeshlet);
    meshletVertices := new FixedArray<U32>();
    meshletVertices.Init(maxMeshlets * MaxVertices, 0);
    meshletTriangles := new FixedArray<Byte>();
    meshletTriangles.Init(maxMeshlets * MaxTriangles * 3, 0);
    meshlets := new FixedArray<Meshlet>();
    meshlets.Init(maxMeshlets, ZeroMeshlet);
    StoreClustering(c, meshlets.data, meshletVertices.data, meshletTriangles.data);

    // Trimming
    var last := meshlets.data[c.count - 1];
    meshletTriangles.Resize(TrimmedTriangleBytes(last));
    meshlets.Resize(c.count);
    outMeshlets.Resize(c.count);
    meshletVertices.Resize(TrimmedVertexCount(last));
  }

  /** The meshlet stage of lines 273-338: the clustered buffers, trimmed,
      are converted meshlet by meshlet into freshly zeroed bounds and packed
      buffers, the packed buffer is shrunk to the final running offset, and
      the two scratch buffers are freed. */
  method BuildMeshlets(positions: seq<Float3>, c: Clustering, optimize: MeshletOptimizer) returns (out: MeshletData)
    requires WellClustered(c, |positions|) && Optimizable(optimize, c)
    ensures Converted(positions, c, optimize, out)
  {
    WellClusteredConvertible(positions, c, optimize);
    TrimmedSizes(positions, c, optimize);
    out := ConvertClustering(positions, c, optimize);
    FinalBuffers(positions, c, optimize, TrimmedTriangleBytes(c.meshlets[c.count - 1]) / 3, out);
  }

  /** The buffer work of the meshlet stage: what each output buffer holds
      once the loop is done and the buffers are trimmed. */
  method ConvertClustering(positions: seq<Float3>, c: Clustering, optimize: MeshletOptimizer) returns (out: MeshletData)
    requires Convertible(positions, c, optimize)
    requires |c.vertices| == |c.meshlets| * MaxVertices && |c.triangles| == |c.meshlets| * MaxTriangles * 3
    requires 1 <= TriangleStart(Produced(c), c.count) <= TrimmedTriangleBytes(c.meshlets[c.count - 1]) / 3
    requires TrimmedTriangleBytes(c.meshlets[c.count - 1]) <= |c.triangles|
    requires TrimmedVertexCount(c.meshlets[c.count - 1]) <= |c.vertices|
    ensures |out.meshlets| == c.count && MeshletsProgress(c, c.count, out.meshlets)
    ensures |out.bounds| == c.count && BoundsProgress(positions, c, c.count, out.bounds)
    ensures out.triangles == PackedAfter(optimize, c, c.count, TrimmedTriangleBytes(c.meshlets[c.count - 1]) / 3)
                               [..TriangleStart(Produced(c), c.count)]
    ensures out.vertices == VerticesAfter(optimize, c, c.count)[..TrimmedVertexCount(c.meshlets[c.count - 1])]
  {
    var outMeshlets, meshletVertices, meshletTriangles, meshlets := ClusterAndTrim(c);
    var bounds, packed := AllocateOutputs(c.count, meshletTriangles.count / 3);
    var triangleOffset := ConvertMeshlets(positions, c, optimize, meshletVertices.data, meshletTriangles.data,
                                          packed.data, bounds.data, outMeshlets.data);
    ProgressPrefix(positions, c, bounds.data[..], outMeshlets.data[..]);
    assert 0 < triangleOffset <= packed.count;
    out := FinishBuffers(outMeshlets, bounds, packed, meshletVertices, meshlets, meshletTriangles, triangleOffset);
  }

  /** Lines 295-296: the bounds and packed-triangle buffers, zeroed. */
  method AllocateOutputs(boundsCount: nat, packedCount: nat)
    returns (bounds: FixedArray<Bounds<real>>, packed: FixedArray<PackedTriangle>)
    ensures fresh(bounds) && fresh(packed) && bounds.Valid() && packed.Valid()
    ensures bounds.data != null && fresh(bounds.data) && packed.data != null && fresh(packed.data)
    ensures bounds.count == boundsCount == bounds.data.Length && packed.count == packedCount == packed.data.Length
    ensures forall k :: 0 <= k < packed.data.Length ==> packed.data[k] == ZeroTriangle
  {
    bounds := new FixedArray<Bounds<real>>();
    bounds.Init(boundsCount, ZeroBounds);
    packed := new FixedArray<PackedTriangle>();
    packed.Init(packedCount, ZeroTriangle);
    assert packed.Contents() == packed.data[..];
  }

  /** Lines 335-338: the packed buffer shrinks to the final running offset,
      the two scratch buffers are freed, and the live elements of the four
      output buffers are the converted mesh's. */
  method FinishBuffers(outMeshlets: FixedArray<Meshlet>, bounds: FixedArray<Bounds<real>>,
                       packed: FixedArray<PackedTriangle>, meshletVertices: FixedArray<U32>,
                       meshlets: FixedArray<Meshlet>, meshletTriangles: FixedArray<Byte>, triangleOffset: nat)
    returns (out: MeshletData)
    requires outMeshlets.Valid() && bounds.Valid() && packed.Valid() && meshletVertices.Valid()
    requires meshlets.Valid() && meshletTriangles.Valid()
    requires outMeshlets.data != null && bounds.data != null && packed.data != null && meshletVertices.data != null
    requires meshlets.data != null && meshletTriangles.data != null
    requires outMeshlets != meshlets
    requires 0 < packed.count == packed.data.Length && triangleOffset <= packed.count
    modifies packed, meshlets, meshletTriangles
    ensures out.meshlets == outMeshlets.data[..outMeshlets.count] && out.bounds == bounds.data[..bounds.count]
    ensures out.triangles == old(packed.data[..triangleOffset])
    ensures out.vertices == meshletVertices.data[..meshletVertices.count]
    ensures meshlets.data == null && meshletTriangles.data == null
  {
    packed.Resize(triangleOffset);
    out := MeshletData(outMeshlets.Contents(), bounds.Contents(), packed.Contents(), meshletVertices.Contents());
    meshlets.Deinit();
    meshletTriangles.Deinit();
  }

  /** The trimmed sizes of lines 290-296 fit the worst-case buffers, and the
      packed buffer sized from them holds every produced triangle. */
  lemma TrimmedSizes(positions: seq<Float3>, c: Clustering, optimize: MeshletOptimizer)
    requires WellClustered(c, |positions|) && Optimizable(optimize, c)
    ensures var last := c.meshlets[c.count - 1];
      && 1 <= TriangleStart(Produced(c), c.count) <= TrimmedTriangleBytes(last) / 3
      && TrimmedTriangleBytes(last) <= |c.triangles|
      && TrimmedVertexCount(last) <= |c.vertices|
  {
    var ms := Produced(c);
    assert ms[c.count - 1] == c.meshlets[c.count - 1];
    TotalTrianglesFit(ms);
    assert OptimizesWithin(optimize, c, c.count - 1);
  }
}
