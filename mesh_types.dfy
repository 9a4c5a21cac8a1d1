/** The value types of tools/model_converter/src/main.cpp: the float vector
    structs and their operators, the meshlet record, the bit-packed meshlet
    triangle and the meshlet bounds. Vectors are generic in their scalar:
    the geometry code works on `real` (IEEE rounding is not modelled) and the
    file codec on the 32-bit patterns the floats are stored as. */
module MeshTypes {
  import opened Base

  datatype Vec2<F> = Vec2(x: F, y: F)
  datatype Vec3<F> = Vec3(x: F, y: F, z: F)

  /** `float2_t` and `float3_t` as used by the geometry stages. */
  type Float2 = Vec2<real>
  type Float3 = Vec3<real>

  /** Largest finite single-precision value, `FLT_MAX`. */
  const FltMax: real := 340282346638528859811704183484516925440.0

  /** `float3_min`: the componentwise minimum. */
  function Float3Min(a: Float3, b: Float3): (r: Float3)
    ensures r.x <= a.x && r.x <= b.x && (r.x == a.x || r.x == b.x)
    ensures r.y <= a.y && r.y <= b.y && (r.y == a.y || r.y == b.y)
    ensures r.z <= a.z && r.z <= b.z && (r.z == a.z || r.z == b.z)
  {
    Vec3(if a.x < b.x then a.x else b.x,
         if a.y < b.y then a.y else b.y,
         if a.z < b.z then a.z else b.z)
  }

  /** `float3_max`: the componentwise maximum. */
  function Float3Max(a: Float3, b: Float3): (r: Float3)
    ensures r.x >= a.x && r.x >= b.x && (r.x == a.x || r.x == b.x)
    ensures r.y >= a.y && r.y >= b.y && (r.y == a.y || r.y == b.y)
    ensures r.z >= a.z && r.z >= b.z && (r.z == a.z || r.z == b.z)
  {
    Vec3(if a.x > b.x then a.x else b.x,
         if a.y > b.y then a.y else b.y,
         if a.z > b.z then a.z else b.z)
  }

  /** `operator+`, `operator-` and `operator/` on `float3_t`. */
  function Add(a: Float3, b: Float3): Float3 { Vec3(a.x + b.x, a.y + b.y, a.z + b.z) }
  function Sub(a: Float3, b: Float3): Float3 { Vec3(a.x - b.x, a.y - b.y, a.z - b.z) }
  function Div(v: Float3, d: real): Float3
    requires d != 0.0
  {
    Vec3(v.x / d, v.y / d, v.z / d)
  }

  /** `meshlet_t`, and also meshoptimizer's `meshopt_Meshlet`, which has the
      same four fields. In the clustering output `triangleOffset` counts
      bytes; in the converted meshlet it counts packed triangles. */
  datatype Meshlet = Meshlet(vertexOffset: U32, triangleOffset: U32, vertexCount: U32, triangleCount: U32)

  const ZeroMeshlet := Meshlet(0, 0, 0, 0)

  /** `meshlet_bounds_t`. */
  datatype Bounds<F> = Bounds(localCenter: Vec3<F>, localExtents: Vec3<F>)

  /** `mesh_data_t`: the eight buffers of one converted primitive, as values. */
  datatype MeshData<F> = MeshData(
    indices: seq<U32>,
    positions: seq<Vec3<F>>,
    normals: seq<Vec3<F>>,
    texcoords: seq<Vec2<F>>,
    meshlets: seq<Meshlet>,
    bounds: seq<Bounds<F>>,
    triangles: seq<PackedTriangle>,
    meshletVertices: seq<U32>)

  const Field: int := 0x400             // 2^10, one bit-field's range
  const Shift1: int := 0x400            // v1 starts at bit 10
  const Shift2: int := 0x10_0000        // v2 starts at bit 20
  const Shift3: int := 0x4000_0000      // the 2 padding bits start at bit 30

  type Field10 = v: int | 0 <= v < 0x400

  /** The two unnamed padding bits of a packed triangle. */
  type Pad2 = p: int | 0 <= p < 4

  /** `meshlet_triangle_t`: the bit-fields `v0:10`, `v1:10`, `v2:10` and two
      unnamed padding bits of one 32-bit word. */
  datatype PackedTriangle = PackedTriangle(v0: Field10, v1: Field10, v2: Field10, padding: Pad2)

  /** The word the fields occupy, allocated from the least significant bit
      upwards. */
  function Word(t: PackedTriangle): U32
  {
    t.v0 + Shift1 * t.v1 + Shift2 * t.v2 + Shift3 * t.padding
  }

  /** The fields read back out of a word. */
  function FromWord(w: U32): PackedTriangle
  {
    PackedTriangle(w % Field, (w / Shift1) % Field, (w / Shift2) % Field, w / Shift3)
  }

  /** Reading the fields of a word gives back the fields it was made of. */
  lemma FromWordOfWord(t: PackedTriangle)
    ensures FromWord(Word(t)) == t
  {
    var w := Word(t);
    assert w / Shift1 == t.v1 + Field * t.v2 + Field * Field * t.padding;
    assert w / Shift2 == t.v2 + Field * t.padding;
  }

  /** Every word is made of the fields read out of it. */
  lemma WordOfFromWord(w: U32)
    ensures Word(FromWord(w)) == w
  {
    assert w == w % Shift1 + Shift1 * (w / Shift1);
    assert w / Shift1 == (w / Shift1) % Field + Field * (w / Shift2);
    assert w / Shift2 == (w / Shift2) % Field + Field * (w / Shift3);
  }

  /** The packed triangle with all-zero bits, as `init` leaves it. */
  const ZeroTriangle := PackedTriangle(0, 0, 0, 0)

  /** The three field assignments `tri.v0 = …; tri.v1 = …; tri.v2 = …` of the
      packing loop; the padding bits stay. */
  function StoreTriangle(t: PackedTriangle, a: Byte, b: Byte, c: Byte): (r: PackedTriangle)
    ensures Word(r) % Shift3 == a + Shift1 * b + Shift2 * c
    ensures Word(r) / Shift3 == Word(t) / Shift3
  {
    var r := t.(v0 := a).(v1 := b).(v2 := c);
    LowBits(r);
    LowBits(t);
    r
  }

  /** `operator==(meshlet_triangle_t, meshlet_triangle_t)`: the three fields
      are compared, the padding is not. */
  predicate TriangleEq(a: PackedTriangle, b: PackedTriangle)
  {
    a.v0 == b.v0 && a.v1 == b.v1 && a.v2 == b.v2
  }

  /** Triangle equality is equality of the low 30 bits of the words. */
  lemma TriangleEqIgnoresPadding(a: PackedTriangle, b: PackedTriangle)
    ensures TriangleEq(a, b) <==> Word(a) % Shift3 == Word(b) % Shift3
  {
    LowBits(a);
    LowBits(b);
    if Word(a) % Shift3 == Word(b) % Shift3 {
      FromWordOfWord(a.(padding := 0));
      FromWordOfWord(b.(padding := 0));
    }
  }

  /** The low 30 bits of a word are the word with its padding cleared. */
  lemma LowBits(t: PackedTriangle)
    ensures Word(t) % Shift3 == Word(t.(padding := 0))
  {
    var low := Word(t.(padding := 0));
    assert 0 <= low < Shift3;
    assert Word(t) == low + Shift3 * t.padding;
  }
}
