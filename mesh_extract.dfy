/** Per-primitive extraction and vertex remapping of
    tools/model_converter/src/main.cpp (lines 227-270). The glTF reader and
    meshoptimizer are foreign: their results arrive here as values. */
module MeshExtract {
  import opened Base
  import opened FixedArrays
  import opened MeshTypes

  const TwoTo32: int := 0x1_0000_0000

  /** The number of primitives over all glTF meshes. */
  function TotalPrimitives(primitiveCounts: seq<nat>): nat
  {
    if primitiveCounts == [] then 0
    else TotalPrimitives(primitiveCounts[..|primitiveCounts| - 1]) + primitiveCounts[|primitiveCounts| - 1]
  }

  lemma AddMod(a: int, b: int)
    ensures ((a % TwoTo32) + (b % TwoTo32)) % TwoTo32 == (a + b) % TwoTo32
  {
  }

  /** The count of converted meshes, one per primitive: each primitive count
      is cast to `uint32_t` and summed into a `uint32_t`, so the total is
      taken modulo 2^32. */
  method CountPrimitives(primitiveCounts: seq<nat>) returns (n: U32)
    ensures n == TotalPrimitives(primitiveCounts) % TwoTo32
  {
    n := 0;
    var i := 0;
    while i < |primitiveCounts|
      invariant i <= |primitiveCounts|
      invariant n == TotalPrimitives(primitiveCounts[..i]) % TwoTo32
    {
      assert primitiveCounts[..i + 1][..i] == primitiveCounts[..i];
      AddMod(TotalPrimitives(primitiveCounts[..i]), primitiveCounts[i]);
      n := AddU32(n, primitiveCounts[i] % TwoTo32);
      i := i + 1;
    }
    assert primitiveCounts[..i] == primitiveCounts;
  }

  /** The corner map of the extraction loop. */
  const IndexMap: seq<nat> := [0, 2, 1]

  /** The index extraction loop: the buffer gets one slot per source index;
      corner 1 is read through `IndexMap[2]` and corner 2 through
      `IndexMap[1]`, which undoes the swap the map encodes, so every triangle
      keeps its source corner order. */
  method ExtractIndices(source: seq<U32>) returns (indices: seq<U32>)
    requires |source| % 3 == 0
    ensures indices == source
  {
    var buffer := new FixedArray<U32>();
    buffer.Init(|source|, 0);
    ghost var n, t := |source| / 3, 0;
    assert |source| == 3 * n;
    var i := 0;
    while i < |source|
      invariant 0 <= t <= n && i == 3 * t
      invariant buffer.Valid() && buffer.data != null && buffer.count == |source|
      invariant buffer.data.Length == |source| && fresh(buffer.data)
      invariant forall k :: 0 <= k < i ==> buffer.data[k] == source[k]
    {
      buffer.data[i + 0] := source[i + IndexMap[0]];
      buffer.data[i + 1] := source[i + IndexMap[2]];
      buffer.data[i + 2] := source[i + IndexMap[1]];
      i, t := i + 3, t + 1;
    }
    indices := buffer.Contents();
    assert indices == buffer.data[..];
  }

  /** Every triangle `(a, b, c)` of `source` as `(a, c, b)`: corner `c` of
      a triangle is read from corner `IndexMap[c]`, which turns the
      triangle's winding around. */
  function Rewound(source: seq<U32>): (r: seq<U32>)
    requires |source| % 3 == 0
    ensures |r| == |source|
  {
    seq(|source|, k requires 0 <= k < |source| => source[k - k % 3 + IndexMap[k % 3]])
  }

  /** Rewinding keeps each triangle's first corner and swaps the other two. */
  lemma RewoundSwapsCorners(source: seq<U32>, t: nat)
    requires |source| % 3 == 0 && 3 * t + 2 < |source|
    ensures var r := Rewound(source);
      r[3 * t] == source[3 * t] && r[3 * t + 1] == source[3 * t + 2] && r[3 * t + 2] == source[3 * t + 1]
  {
    CornerOf(3 * t, t, 0);
    CornerOf(3 * t + 1, t, 1);
    CornerOf(3 * t + 2, t, 2);
  }

  lemma CornerOf(k: int, t: int, c: int)
    requires 0 <= c < 3 && k == 3 * t + c
    ensures k % 3 == c && k - k % 3 == 3 * t
  {
  }

  /** Rewinding twice gives back the source order. */
  lemma RewoundTwice(source: seq<U32>)
    requires |source| % 3 == 0
    ensures Rewound(Rewound(source)) == source
  {
    var r := Rewound(source);
    forall k | 0 <= k < |source| ensures Rewound(r)[k] == source[k] {
      var j := k - k % 3 + IndexMap[k % 3];
      assert j % 3 == IndexMap[k % 3] && j - j % 3 == k - k % 3 by {
        CornerOf(j, (k - k % 3) / 3, IndexMap[k % 3]);
      }
    }
  }

  /** On the single triangle `(0, 1, 2)` the extraction loop as written
      stores `(0, 1, 2)`, while the flipped winding is `(0, 2, 1)`. */
  lemma AsWrittenKeepsWinding()
    ensures var source: seq<U32> := [0, 1, 2];
      Rewound(source) == [0, 2, 1] && Rewound(source) != source
  {
    var source: seq<U32> := [0, 1, 2];
    assert Rewound(source)[1] == 2;
  }

  /** The buffer the extraction loop stores, `source` itself, is the rewound
      one exactly when every triangle's last two corners are the same
      vertex: the loop as written flips the winding of no triangle that
      could show it. */
  lemma {:induction false} AsWrittenRewoundIff(source: seq<U32>)
    requires |source| % 3 == 0
    ensures Rewound(source) == source <==>
      forall t :: 0 <= t && 3 * t + 2 < |source| ==> source[3 * t + 1] == source[3 * t + 2]
  {
    if Rewound(source) == source {
      forall t | 0 <= t && 3 * t + 2 < |source|
        ensures source[3 * t + 1] == source[3 * t + 2]
      {
        RewoundSwapsCorners(source, t);
      }
    }
    if forall t :: 0 <= t && 3 * t + 2 < |source| ==> source[3 * t + 1] == source[3 * t + 2] {
      RewoundByTriangles(source, source);
    }
  }

  /** Triangle `t` of `out` is triangle `t` of `source` with its last two
      corners swapped. */
  ghost predicate SwappedTriangle(out: seq<U32>, source: seq<U32>, t: int)
    requires 0 <= t && 3 * t + 2 < |source| == |out|
  {
    out[3 * t] == source[3 * t] && out[3 * t + 1] == source[3 * t + 2] && out[3 * t + 2] == source[3 * t + 1]
  }

  /** A buffer whose every triangle is swapped is the rewound source. */
  lemma RewoundByTriangles(out: seq<U32>, source: seq<U32>)
    requires |source| % 3 == 0 && |out| == |source|
    requires forall t :: 0 <= t && 3 * t + 2 < |source| ==> SwappedTriangle(out, source, t)
    ensures out == Rewound(source)
  {
    forall k | 0 <= k < |source| ensures out[k] == Rewound(source)[k] {
      var t := k / 3;
      CornerOf(k, t, k % 3);
      assert 3 * t + 2 < |source|;
      assert SwappedTriangle(out, source, t);
    }
  }

  /** The extraction loop with each corner read through its own map entry:
      slot `c` of a triangle from corner `IndexMap[c]`. */
  method ExtractIndicesRewound(source: seq<U32>) returns (indices: seq<U32>)
    requires |source| % 3 == 0
    ensures indices == Rewound(source)
  {
    var buffer := new FixedArray<U32>();
    buffer.Init(|source|, 0);
    ghost var n, t := |source| / 3, 0;
    assert |source| == 3 * n;
    var i := 0;
    while i < |source|
      invariant 0 <= t <= n && i == 3 * t
      invariant buffer.Valid() && buffer.data != null && buffer.count == |source|
      invariant buffer.data.Length == |source| && fresh(buffer.data)
      invariant forall j :: 0 <= j < t ==> SwappedTriangle(buffer.data[..], source, j)
    {
      ghost var before := buffer.data[..];
      buffer.data[i + 0] := source[i + IndexMap[0]];
      buffer.data[i + 1] := source[i + IndexMap[1]];
      buffer.data[i + 2] := source[i + IndexMap[2]];
      forall j | 0 <= j <= t ensures SwappedTriangle(buffer.data[..], source, j) {
        if j < t {
          assert SwappedTriangle(before, source, j);
        }
      }
      i, t := i + 3, t + 1;
    }
    indices := buffer.Contents();
    assert indices == buffer.data[..];
    RewoundByTriangles(indices, source);
  }

  /** A glTF primitive attribute as the converter sees it, with its values
      already unpacked to floats. Attributes of any other semantic are
      skipped by the extraction loop. */
  datatype Attribute =
    | PositionAttribute(positions: seq<Float3>)
    | NormalAttribute(normals: seq<Float3>)
    | TexcoordAttribute(texcoords: seq<Float2>)
    | OtherAttribute

  /** The three vertex streams of one primitive; `None` is a stream whose
      buffer was never initialised. */
  datatype Streams = Streams(positions: Option<seq<Float3>>, normals: Option<seq<Float3>>, texcoords: Option<seq<Float2>>)

  datatype ExtractError =
    | StreamAlreadyInitialised   // `init` asserts `data == nullptr`
    | NothingUnpacked            // `assert(unpacked_count > 0)`

  const NoStreams := Streams(None, None, None)

  /** One attribute on the streams initialised so far: a position, normal
      or texture-coordinate attribute initialises its stream, unless that
      stream is live already or the attribute is empty. */
  function Step(a: Attribute, acc: Streams): Result<Streams, ExtractError>
  {
    match a
    case PositionAttribute(v) =>
      if acc.positions.Some? then Err(StreamAlreadyInitialised)
      else if v == [] then Err(NothingUnpacked)
      else Ok(acc.(positions := Some(v)))
    case NormalAttribute(v) =>
      if acc.normals.Some? then Err(StreamAlreadyInitialised)
      else if v == [] then Err(NothingUnpacked)
      else Ok(acc.(normals := Some(v)))
    case TexcoordAttribute(v) =>
      if acc.texcoords.Some? then Err(StreamAlreadyInitialised)
      else if v == [] then Err(NothingUnpacked)
      else Ok(acc.(texcoords := Some(v)))
    case OtherAttribute => Ok(acc)
  }

  /** What the attribute loop does from `attributes` on, given the streams
      initialised so far: the first failing attribute stops it. */
  function ExtractFrom(attributes: seq<Attribute>, acc: Streams): Result<Streams, ExtractError>
    decreases |attributes|
  {
    if attributes == [] then Ok(acc)
    else
      match Step(attributes[0], acc)
      case Err(e) => Err(e)
      case Ok(next) => ExtractFrom(attributes[1..], next)
  }

  function ExtractSpec(attributes: seq<Attribute>): Result<Streams, ExtractError>
  {
    ExtractFrom(attributes, NoStreams)
  }

  /** The stream a FixedArray holds: `None` while it is uninitialised. */
  function StreamOf<T(0)>(buffer: FixedArray<T>): Option<seq<T>>
    reads buffer, buffer.data
    requires buffer.Valid()
  {
    if buffer.data == null then None else Some(buffer.Contents())
  }

  /** `init` of a stream buffer followed by the foreign unpack into it. */
  method InitAndUnpack<T(0)>(buffer: FixedArray<T>, values: seq<T>, zero: T)
    requires buffer.Valid() && buffer.data == null
    modifies buffer
    ensures buffer.Valid() && buffer.data != null && fresh(buffer.data)
    ensures StreamOf(buffer) == Some(values)
  {
    buffer.Init(|values|, zero);
    forall k | 0 <= k < |values| {
      buffer.data[k] := values[k];
    }
    assert buffer.data[..buffer.count] == values;
  }

  /** One attribute of the loop, for the stream `buffer` it fills: `init`
      refuses a stream that is already live, and the unpack must deliver
      at least one value. */
  method FillStream<T(0)>(buffer: FixedArray<T>, values: seq<T>, zero: T) returns (err: Option<ExtractError>)
    requires buffer.Valid()
    modifies buffer
    ensures buffer.Valid()
    ensures old(buffer.data) != null ==> err == Some(StreamAlreadyInitialised)
    ensures old(buffer.data) == null ==>
      && buffer.data != null && fresh(buffer.data) && StreamOf(buffer) == Some(values)
      && err == if values == [] then Some(NothingUnpacked) else None
  {
    if buffer.data != null {
      return Some(StreamAlreadyInitialised);
    }
    InitAndUnpack(buffer, values, zero);
    err := if |values| == 0 then Some(NothingUnpacked) else None;
  }

  /** The streams three buffers hold. */
  function StreamsOf(positions: FixedArray<Float3>, normals: FixedArray<Float3>, texcoords: FixedArray<Float2>): Streams
    reads positions, positions.data, normals, normals.data, texcoords, texcoords.data
    requires positions.Valid() && normals.Valid() && texcoords.Valid()
  {
    Streams(StreamOf(positions), StreamOf(normals), StreamOf(texcoords))
  }

  /** The body of the attribute loop for attribute `a`. */
  method ExtractOne(positions: FixedArray<Float3>, normals: FixedArray<Float3>, texcoords: FixedArray<Float2>, a: Attribute)
    returns (err: Option<ExtractError>)
    requires positions.Valid() && normals.Valid() && texcoords.Valid() && positions != normals
    modifies positions, normals, texcoords
    ensures positions.Valid() && normals.Valid() && texcoords.Valid()
    ensures var s := Step(a, old(StreamsOf(positions, normals, texcoords)));
      && (s.Err? ==> err == Some(s.error))
      && (s.Ok? ==> err == None && StreamsOf(positions, normals, texcoords) == s.value)
  {
    err := None;
    match a {
      case PositionAttribute(v) =>
        err := FillStream(positions, v, Vec3(0.0, 0.0, 0.0));
      case NormalAttribute(v) =>
        err := FillStream(normals, v, Vec3(0.0, 0.0, 0.0));
      case TexcoordAttribute(v) =>
        err := FillStream(texcoords, v, Vec2(0.0, 0.0));
      case OtherAttribute =>
    }
  }

  /** The attribute loop: each position, normal or texture-coordinate
      attribute initialises its stream and unpacks into it. A second
      attribute of a kind already seen trips `init`'s precondition, and an
      empty attribute trips the unpack assertion; both stop the run. */
  method ExtractAttributes(attributes: seq<Attribute>) returns (r: Result<Streams, ExtractError>)
    ensures r == ExtractSpec(attributes)
  {
    var positions := new FixedArray<Float3>();
    var normals := new FixedArray<Float3>();
    var texcoords := new FixedArray<Float2>();
    var i := 0;
    while i < |attributes|
      invariant 0 <= i <= |attributes|
      invariant positions.Valid() && normals.Valid() && texcoords.Valid()
      invariant ExtractSpec(attributes) == ExtractFrom(attributes[i..], StreamsOf(positions, normals, texcoords))
    {
      assert attributes[i..][1..] == attributes[i + 1..];
      var err := ExtractOne(positions, normals, texcoords, attributes[i]);
      if err.Some? {
        return Err(err.value);
      }
      i := i + 1;
    }
    r := Ok(StreamsOf(positions, normals, texcoords));
  }

  /** Which stream an attribute fills: 0 positions, 1 normals, 2 texture
      coordinates, 3 none. */
  function Kind(a: Attribute): nat
  {
    match a
    case PositionAttribute(_) => 0
    case NormalAttribute(_) => 1
    case TexcoordAttribute(_) => 2
    case OtherAttribute => 3
  }

  predicate IsEmpty(a: Attribute)
  {
    match a
    case PositionAttribute(v) => v == []
    case NormalAttribute(v) => v == []
    case TexcoordAttribute(v) => v == []
    case OtherAttribute => false
  }

  /** Whether the stream of kind `k` is already initialised. */
  predicate Initialised(acc: Streams, k: nat)
  {
    (k == 0 && acc.positions.Some?) || (k == 1 && acc.normals.Some?) || (k == 2 && acc.texcoords.Some?)
  }

  /** The attribute list the loop accepts, starting from `acc`: no stream is
      filled twice, and no filled stream is empty. */
  predicate Acceptable(attributes: seq<Attribute>, acc: Streams)
  {
    && (forall i, j :: 0 <= i < j < |attributes| && Kind(attributes[i]) < 3 ==> Kind(attributes[i]) != Kind(attributes[j]))
    && (forall i :: 0 <= i < |attributes| ==> !IsEmpty(attributes[i]) && !Initialised(acc, Kind(attributes[i])))
  }

  /** The attribute loop succeeds exactly on acceptable attribute lists: a
      second attribute of one kind (two TEXCOORD sets, say) or an empty one
      fails it. */
  lemma {:induction false} ExtractFromSucceedsIff(attributes: seq<Attribute>, acc: Streams)
    ensures ExtractFrom(attributes, acc).Ok? <==> Acceptable(attributes, acc)
    decreases |attributes|
  {
    if attributes != [] {
      var a, rest := attributes[0], attributes[1..];
      if Step(a, acc).Err? {
        assert !(!IsEmpty(a) && !Initialised(acc, Kind(a)));
        return;
      }
      var next := Step(a, acc).value;
      ExtractFromSucceedsIff(rest, next);
      if Acceptable(attributes, acc) {
        assert !IsEmpty(a) && !Initialised(acc, Kind(a));
        forall i, j | 0 <= i < j < |rest| && Kind(rest[i]) < 3
          ensures Kind(rest[i]) != Kind(rest[j])
        {
          assert rest[i] == attributes[i + 1] && rest[j] == attributes[j + 1];
        }
        forall i | 0 <= i < |rest|
          ensures !IsEmpty(rest[i]) && !Initialised(next, Kind(rest[i]))
        {
          assert rest[i] == attributes[i + 1];
          if Kind(a) < 3 { assert Kind(attributes[0]) != Kind(attributes[i + 1]); }
        }
      } else if ExtractFrom(attributes, acc).Ok? {
        assert !IsEmpty(a) && !Initialised(acc, Kind(a));
        assert Acceptable(rest, next);
        forall i, j | 0 <= i < j < |attributes| && Kind(attributes[i]) < 3
          ensures Kind(attributes[i]) != Kind(attributes[j])
        {
          if i == 0 {
            assert attributes[j] == rest[j - 1];
            assert !Initialised(next, Kind(rest[j - 1]));
          } else {
            assert attributes[i] == rest[i - 1] && attributes[j] == rest[j - 1];
          }
        }
        forall i | 0 <= i < |attributes|
          ensures !IsEmpty(attributes[i]) && !Initialised(acc, Kind(attributes[i]))
        {
          if i > 0 {
            assert attributes[i] == rest[i - 1];
            assert !Initialised(next, Kind(rest[i - 1]));
          }
        }
        assert false;
      }
    }
  }

  /** On success every stream holds the values of the attribute of its kind,
      and a kind with no attribute stays uninitialised. */
  lemma {:induction false} ExtractFromStreams(attributes: seq<Attribute>, acc: Streams)
    requires ExtractFrom(attributes, acc).Ok?
    ensures var s := ExtractFrom(attributes, acc).value;
      && (forall i :: 0 <= i < |attributes| && attributes[i].PositionAttribute? ==> s.positions == Some(attributes[i].positions))
      && (forall i :: 0 <= i < |attributes| && attributes[i].NormalAttribute? ==> s.normals == Some(attributes[i].normals))
      && (forall i :: 0 <= i < |attributes| && attributes[i].TexcoordAttribute? ==> s.texcoords == Some(attributes[i].texcoords))
      && ((forall i :: 0 <= i < |attributes| ==> !attributes[i].PositionAttribute?) ==> s.positions == acc.positions)
      && ((forall i :: 0 <= i < |attributes| ==> !attributes[i].NormalAttribute?) ==> s.normals == acc.normals)
      && ((forall i :: 0 <= i < |attributes| ==> !attributes[i].TexcoordAttribute?) ==> s.texcoords == acc.texcoords)
    decreases |attributes|
  {
    if attributes != [] {
      var a, rest := attributes[0], attributes[1..];
      var next := Step(a, acc).value;
      assert ExtractFrom(attributes, acc) == ExtractFrom(rest, next);
      ExtractFromStreams(rest, next);
      ExtractFromSucceedsIff(rest, next);
      var s := ExtractFrom(attributes, acc).value;
      forall i | 0 < i < |attributes|
        ensures attributes[i] == rest[i - 1]
      {
      }
    }
  }

  /** The last position of `x` in `s`, if any. */
  function LastIndexOf(s: seq<U32>, x: int): (r: Option<nat>)
    ensures r.Some? ==> r.value < |s| && s[r.value] == x && forall k :: r.value < k < |s| ==> s[k] != x
    ensures r.None? ==> forall i :: 0 <= i < |s| ==> s[i] != x
  {
    if s == [] then None
    else if s[|s| - 1] == x then Some(|s| - 1)
    else LastIndexOf(s[..|s| - 1], x)
  }

  /** A vertex remap in the sense of meshoptimizer's fetch remap, restricted
      to the case where every vertex is referenced: old vertex `i` moves to
      slot `remap[i]`, and no two vertices share a slot. */
  predicate IsPermutation(remap: seq<U32>)
  {
    && (forall i :: 0 <= i < |remap| ==> remap[i] < |remap|)
    && (forall i, j :: 0 <= i < j < |remap| ==> remap[i] != remap[j])
  }

  /** `meshopt_remapIndexBuffer`: every index is renamed through the remap. */
  function RemapIndexBuffer(indices: seq<U32>, remap: seq<U32>): (r: seq<U32>)
    requires forall j :: 0 <= j < |indices| ==> indices[j] < |remap|
    ensures |r| == |indices|
    ensures IsPermutation(remap) ==> forall j :: 0 <= j < |r| ==> r[j] < |remap|
    ensures IsPermutation(remap) ==>
      forall i, j :: 0 <= i < |r| && 0 <= j < |r| ==> (r[i] == r[j] <==> indices[i] == indices[j])
  {
    seq(|indices|, j requires 0 <= j < |indices| => remap[indices[j]])
  }

  /** `meshopt_remapVertexBuffer` run in place on a stream of `|stream|`
      vertices: vertex `i` is stored to slot `remap[i]`, in order of `i`, so
      a slot several vertices are stored to keeps the last of them; a slot
      nothing is stored to keeps its old value. */
  function RemapVertexBuffer<T>(stream: seq<T>, remap: seq<U32>): (r: seq<T>)
    requires |stream| <= |remap|
    requires forall i :: 0 <= i < |stream| ==> remap[i] < |stream|
    ensures |r| == |stream|
    ensures forall i :: 0 <= i < |stream| && (forall i' :: i < i' < |stream| ==> remap[i'] != remap[i]) ==>
      r[remap[i]] == stream[i]
    ensures forall k :: 0 <= k < |r| && (forall i :: 0 <= i < |stream| ==> remap[i] != k) ==> r[k] == stream[k]
  {
    var r := seq(|stream|, j requires 0 <= j < |stream| =>
      match LastIndexOf(remap[..|stream|], j)
      case Some(i) => stream[i]
      case None => stream[j]);
    forall i | 0 <= i < |stream| && (forall i' :: i < i' < |stream| ==> remap[i'] != remap[i])
      ensures r[remap[i]] == stream[i]
    {
      assert remap[..|stream|][i] == remap[i];
    }
    r
  }

  /** One remap drives the index buffer and a vertex stream: the vertex the
      new index buffer names at position `j` carries the value the old index
      buffer named there. */
  lemma {:induction false} RemapKeepsVertices<T>(indices: seq<U32>, stream: seq<T>, remap: seq<U32>)
    requires IsPermutation(remap) && |stream| == |remap|
    requires forall j :: 0 <= j < |indices| ==> indices[j] < |stream|
    ensures var newIndices := RemapIndexBuffer(indices, remap);
      forall j :: 0 <= j < |indices| ==>
        newIndices[j] < |stream| && RemapVertexBuffer(stream, remap)[newIndices[j]] == stream[indices[j]]
  {
  }

  /** A remapped full stream is a rearrangement of the old one: slot
      `remap[i]` holds old vertex `i`. */
  lemma RemapStoresEachVertex<T>(stream: seq<T>, remap: seq<U32>, i: nat)
    requires IsPermutation(remap) && |stream| == |remap| && i < |stream|
    ensures RemapVertexBuffer(stream, remap)[remap[i]] == stream[i]
  {
  }

  /** The remapped primitive: the index buffer and the three streams after
      the four remap calls, which all use the one table. A stream that was
      never initialised has count 0 and is left empty. */
  datatype Primitive = Primitive(indices: seq<U32>, positions: seq<Float3>, normals: seq<Float3>, texcoords: seq<Float2>)

  predicate RemapApplies(p: Primitive, remap: seq<U32>)
  {
    && IsPermutation(remap) && |remap| == |p.positions|
    && (|p.normals| == 0 || |p.normals| == |p.positions|)
    && (|p.texcoords| == 0 || |p.texcoords| == |p.positions|)
    && (forall j :: 0 <= j < |p.indices| ==> p.indices[j] < |p.positions|)
  }

  function ApplyRemap(p: Primitive, remap: seq<U32>): (r: Primitive)
    requires RemapApplies(p, remap)
    ensures RemapApplies(r, remap)
  {
    var r := Primitive(RemapIndexBuffer(p.indices, remap), RemapVertexBuffer(p.positions, remap),
              RemapVertexBuffer(p.normals, remap), RemapVertexBuffer(p.texcoords, remap));
    assert forall j :: 0 <= j < |r.indices| ==> r.indices[j] == remap[p.indices[j]];
    r
  }

  /** After the remap every triangle corner still describes the same vertex
      in all three streams. */
  lemma {:induction false} ApplyRemapConsistent(p: Primitive, remap: seq<U32>)
    requires RemapApplies(p, remap)
    ensures var r := ApplyRemap(p, remap);
      forall j :: 0 <= j < |p.indices| ==>
        && r.positions[r.indices[j]] == p.positions[p.indices[j]]
        && (|p.normals| > 0 ==> r.normals[r.indices[j]] == p.normals[p.indices[j]])
        && (|p.texcoords| > 0 ==> r.texcoords[r.indices[j]] == p.texcoords[p.indices[j]])
  {
    RemapKeepsVertices(p.indices, p.positions, remap);
    if |p.normals| > 0 { RemapKeepsVertices(p.indices, p.normals, remap); }
    if |p.texcoords| > 0 { RemapKeepsVertices(p.indices, p.texcoords, remap); }
  }
}
