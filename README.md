# Tides of Revival tools: a Dafny model

This project models three small tools of the Tides of Revival repository and
proves properties of each.

**The model converter** (`tools/model_converter/src/main.cpp`) turns the
primitives of a glTF file into the `.mesh` format. The model covers these
steps:

- It extracts the index buffer and the position, normal and texture-coordinate
  streams into owned `fixed_array_t` buffers.
- It renames the vertices through one meshoptimizer remap table.
- It trims the meshoptimizer clustering's worst-case meshlet buffers to their
  real sizes.
- It gives every meshlet a bounding box.
- It packs each meshlet's local triangles into 10/10/10/2 bit-field words
  behind a running offset.
- It writes the file: the magic `TidesMesh`, a `size_t` mesh count, eight
  `size_t` counts per mesh, then the mesh's eight data blocks.
- It reads the file back and compares every count and element with memory,
  using the tool's own `operator==`s.

**The world generator** (`tools/simulator/src/sim_cpp/world_generator.cpp`)
covers the following:

- It classifies Voronoi cells from the colour of the landscape image under
  each site.
- Its integer raster helpers are `orient2d`, `min2`/`max2`/`min3`/`max3`,
  `plot` and `draw_triangle`.
- The landscape preview zeroes an RGBA buffer and paints each site's
  triangles in its cell's colour. It then flips the rows in place through a
  scratch row.

**The licence builder** (`tools/build_licenses.py`) assembles `licenses.txt`
from three tab-separated tables. It skips each table's header line and keeps
only the rows that start with `Y`. Each row is formatted as three lines and a
blank one. The code, content and source-asset sections follow in a fixed
order.

## How the model is built

Code that changes state step by step is modelled as imperative Dafny and
proved against specification functions:

- `fixed_array_t` is a class.
- The index, bounds, packing, plotting, raster, flip, file-writing and
  read-back loops are methods with loop invariants.

Pure code is modelled as functions, with lemmas about them.

Floats are modelled in two ways:

- In the geometry stages they are mathematical reals.
- In the file they are 32-bit patterns, with IEEE `==` (a NaN equals
  nothing, and `+0 == -0`).

The machine's native byte order is a parameter and covers either order. The
foreign libraries (cgltf, meshoptimizer, stb_image, jc_voronoi) are inputs or
function parameters. Their outputs are constrained only by what the code
relies on:

- the clustering lies back to back within its buffers;
- the remap is a permutation;
- the per-meshlet optimiser rearranges the vertices of one meshlet and keeps
  its local indices in range.

### Facts of the code worth stating

The model follows the code as written, in particular:

- The file has no feature-flags word, no interleaved vertex layout and no
  tangent stream.
- Every mesh always has exactly eight counts: indices, positions, normals,
  texcoords, meshlets, bounds, meshlet triangles and meshlet vertices.
- The streams are written in the order positions, normals, texcoords.
- The converter takes no flags, and meshlets are always built.
- The extraction loop is evidently meant to store each triangle `(a,b,c)` as
  `(a,c,b)`. It reads `index_map` twice, so the indices are copied
  unchanged. `MeshExtract.ExtractIndices` models the code as written (see
  Findings).
- The classifier's water colour is `(0,148,255)`, while the preview's water
  colour is `(0,127,255)`. Both are modelled as written.

## Model

| member | source | states |
|---|---|---|
| Base.AddU32 | tools/model_converter/src/main.cpp:206-210 | The `uint32_t` sum wraps around past 2^32 - 1. |
| FixedArrays.FixedArray.constructor | tools/model_converter/src/main.cpp:129-132 | A new buffer is uninitialised: null data and count 0. |
| FixedArrays.FixedArray.Init | tools/model_converter/src/main.cpp:134-142 | Requires an uninitialised buffer. Afterwards the buffer holds fresh storage of `initialCount` elements, all zero, and count is `initialCount`. |
| FixedArrays.FixedArray.Deinit | tools/model_converter/src/main.cpp:144-150 | Requires live data. Afterwards data is null and count is 0. |
| FixedArrays.FixedArray.Resize | tools/model_converter/src/main.cpp:152-162 | Requires live data, `count > 0` and `newCount <= count`. Count becomes `newCount`, the same storage keeps the first `newCount` elements unchanged, and the object invariant holds. |
| MeshTypes.Float3Min | tools/model_converter/src/main.cpp:25-33 | Each component is at most both inputs' and equals one of them. |
| MeshTypes.Float3Max | tools/model_converter/src/main.cpp:35-43 | Each component is at least both inputs' and equals one of them. |
| MeshTypes.FromWordOfWord | tools/model_converter/src/main.cpp:101-107 | Reading the bit-fields out of a packed word gives back the `v0`, `v1`, `v2` and padding it was made of. |
| MeshTypes.WordOfFromWord | tools/model_converter/src/main.cpp:101-107 | Every 32-bit word is exactly the packing of its four fields. |
| MeshTypes.TriangleEqIgnoresPadding | tools/model_converter/src/main.cpp:109-114 | Triangle `==` holds exactly when the low 30 bits of the two words agree, so the padding bits are ignored. |
| MeshTypes.LowBits | tools/model_converter/src/main.cpp:101-107 | The low 30 bits of a word are the word with its padding cleared. |
| MeshTypes.StoreTriangle | tools/model_converter/src/main.cpp:321-323 | After the three bit-field stores, the word's low 30 bits are `v0 + 2^10*v1 + 2^20*v2` and the two padding bits are unchanged. |
| MeshletLayout.ClearLowTwoBits | tools/model_converter/src/main.cpp:290 | Masking a 32-bit value with `~3` clears its two low bits. |
| MeshletLayout.PaddedTriangleBytesIsRoundUp | tools/model_converter/src/main.cpp:290 | Without wrap-around, `(3t + 3) & ~3` is the smallest multiple of 4 that is at least `3t`. |
| MeshletLayout.PaddedSpan | tools/model_converter/src/main.cpp:290 | The padded span of a meshlet's triangle bytes is a multiple of 4 in `[3t, 3t + 4)`. |
| MeshletLayout.PaddedTriangleBytesIsPaddedSpan | tools/model_converter/src/main.cpp:290 | The masked 32-bit expression equals that padded span whenever it does not wrap. |
| MeshletLayout.TrimmedTriangleBytesNoWrap | tools/model_converter/src/main.cpp:289-290 | The trimmed triangle-byte count is the last meshlet's offset plus its padded span. |
| MeshletLayout.StartsMonotone | tools/model_converter/src/main.cpp:298-332 | The vertex, triangle-byte and packed-triangle running offsets never decrease. |
| MeshletLayout.ContiguousOrdered | tools/model_converter/src/main.cpp:285-290 | In a back-to-back clustering, an earlier meshlet ends before a later one starts, in all three buffers. |
| MeshletLayout.TriangleStartBelowBytes | tools/model_converter/src/main.cpp:296 | The packed-triangle offset of meshlet `i` is at most a third of its byte offset. |
| MeshletLayout.TotalTrianglesFit | tools/model_converter/src/main.cpp:289-296 | The trimmed byte count is the end of the last padded span. The packed buffer of `bytes / 3` entries holds every produced triangle, so the final shrink at line 335 is allowed. |
| MeshletLayout.TriangleStartBelowTotal | tools/model_converter/src/main.cpp:329-332 | Each step adds the meshlet's triangle count and stays within the final total. |
| Meshlets.FoldMinIsMinimum | tools/model_converter/src/main.cpp:302-310 | Starting from `+FLT_MAX`, the running minimum over finite positions is their componentwise minimum, attained by some position. |
| Meshlets.FoldMaxIsMaximum | tools/model_converter/src/main.cpp:302-310 | Starting from `-FLT_MAX`, the running maximum is the componentwise maximum, attained by some position. |
| Meshlets.BoundsFromMinMax | tools/model_converter/src/main.cpp:311-313 | `centre - extents == min` and `centre + extents == max`. |
| Meshlets.MeshletBoundsExact | tools/model_converter/src/main.cpp:302-313 | A meshlet's box reaches exactly from the minimum to the maximum of the positions its triangle corners name. |
| Meshlets.MeshletBoundsLocal | tools/model_converter/src/main.cpp:302-313 | A meshlet's box depends only on its own spans of the vertex and triangle-byte buffers. |
| Meshlets.ComputeBounds | tools/model_converter/src/main.cpp:302-313 | The bounds loop returns the meshlet's box. |
| Meshlets.PackTriangles | tools/model_converter/src/main.cpp:319-325 | The packing loop stores triangle `t`'s three bytes into packed word `offset + t` and changes nothing else. |
| Meshlets.PackIntoZeros | tools/model_converter/src/main.cpp:319-325 | Packing into zeroed words leaves exactly the source's triangles, with clear padding. |
| Meshlets.PackIntoKeeps | tools/model_converter/src/main.cpp:319-325 | Packing leaves the earlier packed triangles intact. |
| Meshlets.VerticesAfterUntouched | tools/model_converter/src/main.cpp:317 | Until the loop reaches meshlet `i`, its vertex span and everything after it are as the clustering left them. |
| Meshlets.TrianglesAfterUntouched | tools/model_converter/src/main.cpp:317 | The same holds for the triangle bytes. |
| Meshlets.PackedAfterUntouched | tools/model_converter/src/main.cpp:296 | The packed words from meshlet `i`'s running offset on are still zero until the loop reaches it. |
| Meshlets.VerticesAfterDone | tools/model_converter/src/main.cpp:317 | Once passed, a meshlet's optimised vertex list stays in place. |
| Meshlets.PackedAfterDone | tools/model_converter/src/main.cpp:319-332 | Once passed, a meshlet's packed triangles stay in place at its running offset. |
| Meshlets.ConvertMeshlet | tools/model_converter/src/main.cpp:299-333 | One iteration computes the box from the spans before optimisation, writes the optimiser's results over the meshlet's two spans, packs from the running offset and returns the output record. |
| Meshlets.ConvertStep | tools/model_converter/src/main.cpp:299-333 | One iteration takes the buffers from their state after `i` meshlets to their state after `i + 1`. The next running offset is the sum of the triangle counts so far. |
| Meshlets.RecordMeshlet | tools/model_converter/src/main.cpp:311-313 | Meshlet `i`'s box and output record are stored at index `i`. |
| Meshlets.ConvertIteration | tools/model_converter/src/main.cpp:299-332 | One whole turn of the loop keeps the loop's invariant on all five buffers. |
| Meshlets.ConvertMeshlets | tools/model_converter/src/main.cpp:298-333 | After the loop, every meshlet's box and record are stored. The buffers hold every meshlet's optimised spans and packed triangles, and the offset is the triangle total. |
| Meshlets.StoreClustering | tools/model_converter/src/main.cpp:285-286 | The clustering's output lands in the worst-case buffers. |
| Meshlets.ClusterAndTrim | tools/model_converter/src/main.cpp:277-294 | The worst-case buffers are allocated and filled, then trimmed. Meshlets get `meshlet_count` entries, vertices `last.vertex_offset + last.vertex_count` and triangle bytes `last.triangle_offset + ((3t + 3) & ~3)`. |
| Meshlets.AllocateOutputs | tools/model_converter/src/main.cpp:295-296 | The bounds and packed-triangle buffers are fresh, sized and zeroed. |
| Meshlets.FinishBuffers | tools/model_converter/src/main.cpp:335-338 | The packed buffer shrinks to the final offset, and the two scratch buffers are freed. |
| Meshlets.ConvertClustering | tools/model_converter/src/main.cpp:289-338 | After the loop and the trims, every produced meshlet has its record and box. The vertex buffer is the loop's final vertex state cut to the trimmed count. The packed buffer is the loop's final packed state cut at the triangle total. |
| Meshlets.TrimmedSizes | tools/model_converter/src/main.cpp:289-296 | The trimmed sizes fit the worst-case buffers, and the `bytes / 3` packed buffer holds every triangle. |
| Meshlets.FinalBuffers | tools/model_converter/src/main.cpp:327-335 | The trimmed buffers after the loop are the converted meshlets. |
| Meshlets.BuildMeshlets | tools/model_converter/src/main.cpp:273-338 | See the note after this table. |
| ByteCodec.LittleEndianRoundTrip | tools/model_converter/src/main.cpp:351 | An integer's little-endian bytes read back as that integer. |
| ByteCodec.DecodeEncodeUInt | tools/model_converter/src/main.cpp:351 | An integer written in native byte order reads back unchanged, in either order. |
| ByteCodec.U32RoundTrip | tools/model_converter/src/main.cpp:374 | A `uint32_t` written reads back unchanged. |
| ByteCodec.U64RoundTrip | tools/model_converter/src/main.cpp:357-371 | A `size_t` count written reads back unchanged. |
| ByteCodec.Float3RoundTrip | tools/model_converter/src/main.cpp:375-376 | A `float3_t` image reads back as the same three bit patterns. |
| ByteCodec.U32Codec | tools/model_converter/src/main.cpp:374 | The index element is 4 bytes and reads back unchanged. |
| ByteCodec.Float3Codec | tools/model_converter/src/main.cpp:375-376 | The position and normal element is 12 bytes and reads back unchanged. |
| ByteCodec.Float2Codec | tools/model_converter/src/main.cpp:377 | The texcoord element is 8 bytes and reads back unchanged. |
| ByteCodec.MeshletCodec | tools/model_converter/src/main.cpp:378 | The `meshlet_t` element is 16 bytes and reads back unchanged. |
| ByteCodec.BoundsCodec | tools/model_converter/src/main.cpp:379 | The `meshlet_bounds_t` element is 24 bytes and reads back unchanged. |
| ByteCodec.TriangleCodec | tools/model_converter/src/main.cpp:380 | A packed triangle is 4 bytes and reads back unchanged, padding included. |
| MeshFile.Float3EqSelf | tools/model_converter/src/main.cpp:75-78 | A `float3_t` equals itself under `operator==` exactly when none of its components is a NaN. |
| MeshFile.Float2EqSelf | tools/model_converter/src/main.cpp:80-83 | The same holds for `float2_t`. |
| MeshFile.DecodeEncodeBlock | tools/model_converter/src/main.cpp:374-381 | A block of `count` elements, read with the in-memory count, gives the elements back and stops at the next block. |
| MeshFile.MatchBlockStep | tools/model_converter/src/main.cpp:431-434 | The element loop compares one element and goes on with the rest. |
| MeshFile.MatchEncodedBlock | tools/model_converter/src/main.cpp:426-437 | A written block passes its check exactly when every element equals itself. |
| MeshFile.CheckBlock | tools/model_converter/src/main.cpp:426-437 | The read-and-compare loop of one block answers the block check and advances past the block. |
| MeshFile.CountsRoundTrip | tools/model_converter/src/main.cpp:401-424 | The eight counts written are the eight counts read back. |
| MeshFile.CountsUnrolled | tools/model_converter/src/main.cpp:357-371 | The counts are laid down as the eight `fwrite` calls do, in their order. |
| MeshFile.MeshLayout | tools/model_converter/src/main.cpp:357-381 | A mesh in the file is its counts, then its eight blocks in count order. |
| MeshFile.U32Block | tools/model_converter/src/main.cpp:426-437 | The index block reads back and always passes. |
| MeshFile.Float3Block | tools/model_converter/src/main.cpp:438-461 | The position and normal blocks read back, and pass exactly when no component is a NaN. |
| MeshFile.Float2Block | tools/model_converter/src/main.cpp:462-473 | The texcoord block reads back, and passes exactly when no component is a NaN. |
| MeshFile.MeshletBlock | tools/model_converter/src/main.cpp:474-485 | The meshlet block reads back and always passes. |
| MeshFile.BoundsBlock | tools/model_converter/src/main.cpp:486-497 | The bounds block reads back, and passes exactly when no float is a NaN. |
| MeshFile.TriangleBlock | tools/model_converter/src/main.cpp:498-509 | The packed-triangle block reads back and always passes. |
| MeshFile.DecodeEncodeMesh | tools/model_converter/src/main.cpp:355-381 | A mesh read from what the writer wrote for it is that mesh, and the reader stops right after it. |
| MeshFile.MatchEncodedStreams | tools/model_converter/src/main.cpp:426-473 | The four stream blocks pass exactly when no stream float is a NaN. |
| MeshFile.MatchEncodedClusters | tools/model_converter/src/main.cpp:474-521 | The four meshlet blocks pass exactly when no bound is a NaN. |
| MeshFile.MatchEncodedMesh | tools/model_converter/src/main.cpp:400-521 | The read-back of a freshly written mesh passes exactly when none of its floats is a NaN. |
| MeshFile.WriteCounts | tools/model_converter/src/main.cpp:357-371 | The file grows by the mesh's eight counts. |
| MeshFile.WriteBlocks | tools/model_converter/src/main.cpp:374-381 | The file grows by the mesh's eight blocks. |
| MeshFile.WriteMesh | tools/model_converter/src/main.cpp:355-381 | The file grows by the mesh's encoding. |
| MeshFile.EncodeAllAppend | tools/model_converter/src/main.cpp:353-383 | Writing one more mesh appends its bytes. |
| MeshFile.DecodeEncodeAll | tools/model_converter/src/main.cpp:353-383 | Meshes written one after another read back in order. |
| MeshFile.MatchEncodedAll | tools/model_converter/src/main.cpp:398-522 | A written run of meshes passes its checks exactly when every mesh is good. |
| MeshFile.EncodeLayout | tools/model_converter/src/main.cpp:348-351 | The file starts with the 9-byte magic, then the mesh count as a `size_t`, then the meshes. |
| MeshFile.DecodeEncode | tools/model_converter/src/main.cpp:342-386 | Reading the written file gives back the meshes written. |
| MeshFile.ReadBackOfWritten | tools/model_converter/src/main.cpp:388-526 | The converter's own read-back passes on the file it wrote exactly when no float in any mesh is a NaN. |
| MeshFile.WriteFile | tools/model_converter/src/main.cpp:342-386 | The writer produces the encoding of the meshes. |
| MeshFile.CheckCounts | tools/model_converter/src/main.cpp:401-424 | The eight count reads pass exactly when each matches memory. |
| MeshFile.CheckStreams | tools/model_converter/src/main.cpp:426-473 | The checks of the four stream blocks, advancing past them. |
| MeshFile.CheckClusters | tools/model_converter/src/main.cpp:474-521 | The checks of the four meshlet blocks, advancing past them. |
| MeshFile.CheckMesh | tools/model_converter/src/main.cpp:400-521 | One turn of the read-back loop. |
| MeshFile.ReadBack | tools/model_converter/src/main.cpp:388-526 | The read-back passes exactly when the count read equals the number of meshes and every mesh matches. The magic is not checked. |
| MeshExtract.CountPrimitives | tools/model_converter/src/main.cpp:206-210 | The mesh count is the total number of primitives modulo 2^32. |
| MeshExtract.ExtractIndices | tools/model_converter/src/main.cpp:227-234 | As written, the stored index buffer equals the source indices. |
| MeshExtract.RewoundSwapsCorners | tools/model_converter/src/main.cpp:228-233 | The intended reorder keeps each triangle's first corner and swaps the other two. |
| MeshExtract.RewoundTwice | tools/model_converter/src/main.cpp:228-233 | Reordering twice gives back the source. |
| MeshExtract.AsWrittenKeepsWinding | tools/model_converter/src/main.cpp:228-233 | On `(0,1,2)` the intended order is `(0,2,1)`, which differs from what the loop stores. |
| MeshExtract.AsWrittenRewoundIff | tools/model_converter/src/main.cpp:228-233 | The stored buffer (the source indices) equals the intended one exactly when every triangle's corners 1 and 2 are equal, so any triangle with two distinct later corners keeps the wrong winding. |
| MeshExtract.ExtractIndicesRewound | tools/model_converter/src/main.cpp:227-234 | The corrected loop stores every triangle `(a,b,c)` as `(a,c,b)`. |
| MeshExtract.InitAndUnpack | tools/model_converter/src/main.cpp:241-242 | `init` followed by the unpack leaves the stream holding the unpacked values. |
| MeshExtract.FillStream | tools/model_converter/src/main.cpp:239-256 | A stream that is already initialised is refused with an error, as `init` refuses it. Otherwise the stream is filled with the unpacked values, and an empty unpack is an error. |
| MeshExtract.ExtractOne | tools/model_converter/src/main.cpp:238-256 | One attribute takes the streams one step or reports that step's error. |
| MeshExtract.ExtractAttributes | tools/model_converter/src/main.cpp:236-257 | The attribute loop computes the streams of the attribute list, and the first error stops it. |
| MeshExtract.ExtractFromSucceedsIff | tools/model_converter/src/main.cpp:236-257 | The loop succeeds exactly when no stream kind appears twice and no attribute is empty, so a second TEXCOORD set is refused. |
| MeshExtract.ExtractFromStreams | tools/model_converter/src/main.cpp:236-257 | On success each stream holds its attribute's values, and a missing kind stays uninitialised. |
| MeshExtract.RemapIndexBuffer | tools/model_converter/src/main.cpp:266 | With a permutation remap, every new index is in range, and two corners share a new index exactly when they shared the old one. |
| MeshExtract.RemapVertexBuffer | tools/model_converter/src/main.cpp:267-269 | Slot `remap[i]` holds vertex `i` unless a later vertex is stored in the same slot, so the last store wins. A slot no vertex is stored in keeps its value. |
| MeshExtract.RemapKeepsVertices | tools/model_converter/src/main.cpp:263-270 | With a permutation remap, the remapped stream at `newIndices[j]` holds the old value at `indices[j]`. |
| MeshExtract.RemapStoresEachVertex | tools/model_converter/src/main.cpp:267-269 | Slot `remap[i]` of a remapped stream holds old vertex `i`. |
| MeshExtract.ApplyRemapConsistent | tools/model_converter/src/main.cpp:263-270 | One table drives the index buffer and all three streams. Every corner still names the same position, normal and texcoord. |
| ImageLayout.SampleOffsetIsPixelIndex | tools/simulator/src/sim_cpp/world_generator.cpp:46 | The sampler's offset `(x + y*w)*c` is the plotter's `y*w*c + x*c`. |
| ImageLayout.PixelOfByte | tools/simulator/src/sim_cpp/world_generator.cpp:165-169 | A byte lies among pixel `(x, y)`'s bytes exactly when its column and row are `x` and `y`, and it is then channel `k % nchannels`. |
| ImageLayout.PixelInImage | tools/simulator/src/sim_cpp/world_generator.cpp:163-168 | Every byte of an in-image pixel lies in the `w*h*nchannels` buffer. |
| ImageLayout.FlipIndexAt | tools/simulator/src/sim_cpp/world_generator.cpp:272-277 | Slot `c` of row `r` receives slot `c` of row `h-1-r`. |
| ImageLayout.FlipIndexInvolutive | tools/simulator/src/sim_cpp/world_generator.cpp:272-277 | Reversing the rows twice puts every byte back. |
| WorldGenerator.Classify | tools/simulator/src/sim_cpp/world_generator.cpp:47-62 | The result is water exactly for `(0,148,255)`, mountain exactly for `(128,128,128)`, and land otherwise, `(38,127,0)` included. |
| WorldGenerator.ClassifyNeverNoneOrShore | tools/simulator/src/sim_cpp/world_generator.cpp:47-62 | The classifier never yields NONE or SHORE. |
| WorldGenerator.SampleInImage | tools/simulator/src/sim_cpp/world_generator.cpp:41-46 | For a pixel the assertions admit and at least three channels, the sample's three bytes are in the image. |
| WorldGenerator.ClassifySites | tools/simulator/src/sim_cpp/world_generator.cpp:32-63 | Each site's cell gets the type of its sample, and every other cell is unchanged. |
| WorldGenerator.Min2 | tools/simulator/src/sim_cpp/world_generator.cpp:142-145 | The result is at most both arguments and is one of them. |
| WorldGenerator.Max2 | tools/simulator/src/sim_cpp/world_generator.cpp:147-150 | The result is at least both arguments and is one of them. |
| WorldGenerator.Min3 | tools/simulator/src/sim_cpp/world_generator.cpp:152-155 | The result is the minimum of the three arguments. |
| WorldGenerator.Max3 | tools/simulator/src/sim_cpp/world_generator.cpp:156-159 | The result is the maximum of the three arguments. |
| WorldGenerator.Trunc | tools/simulator/src/sim_cpp/world_generator.cpp:139 | The `(int)` cast rounds toward zero. |
| WorldGenerator.Orient2d | tools/simulator/src/sim_cpp/world_generator.cpp:137-140 | The orientation is zero when two corners truncate to the same point. |
| WorldGenerator.Orient2dSymmetries | tools/simulator/src/sim_cpp/world_generator.cpp:137-140 | `orient2d` is unchanged by rotating the corners and negated by swapping two. |
| WorldGenerator.EdgeFunctionsSum | tools/simulator/src/sim_cpp/world_generator.cpp:198-200 | At any pixel, the three edge functions add up to the triangle's orientation. |
| WorldGenerator.CoversWithin | tools/simulator/src/sim_cpp/world_generator.cpp:179-206 | Every plotted pixel is in the image and in the triangle's bounding box. |
| WorldGenerator.NegativeOrientationDrawsNothing | tools/simulator/src/sim_cpp/world_generator.cpp:175-206 | A triangle of negative orientation plots no pixel. |
| WorldGenerator.Plot | tools/simulator/src/sim_cpp/world_generator.cpp:161-170 | A pixel outside the image leaves the image unchanged. Otherwise exactly its `nchannels` bytes from `y*w*n + x*n` become the colour. |
| WorldGenerator.DrawPixel | tools/simulator/src/sim_cpp/world_generator.cpp:195-206 | One pixel of the raster loop is plotted when inside all edges and skipped otherwise. |
| WorldGenerator.DrawTriangle | tools/simulator/src/sim_cpp/world_generator.cpp:172-209 | Afterwards exactly the bytes of the covered pixels hold the colour. Covered means a non-zero area, inside the clipped box and with `w0, w1, w2 >= 0`. |
| WorldGenerator.CopyBytes | tools/simulator/src/sim_cpp/world_generator.cpp:274-276 | `memcpy` of `n` bytes between non-overlapping ranges overwrites the destination range and nothing else. |
| WorldGenerator.SwapRows | tools/simulator/src/sim_cpp/world_generator.cpp:274-276 | The three copies through the scratch row exchange the two rows and change nothing else. |
| WorldGenerator.FlipStep | tools/simulator/src/sim_cpp/world_generator.cpp:272-277 | One turn extends the mirrored band by one row at each end. |
| WorldGenerator.FlipDone | tools/simulator/src/sim_cpp/world_generator.cpp:272-277 | After `h/2` turns every row is its mirror, and the middle row of an odd height is untouched. |
| WorldGenerator.FlipRows | tools/simulator/src/sim_cpp/world_generator.cpp:269-277 | After the loop, row `r` holds original row `h-1-r`. |
| WorldGenerator.FlippedTwice | tools/simulator/src/sim_cpp/world_generator.cpp:269-277 | Flipping twice restores the buffer. |
| WorldGenerator.SiteColour | tools/simulator/src/sim_cpp/world_generator.cpp:233-253 | See the note after this table. |
| WorldGenerator.Blank | tools/simulator/src/sim_cpp/world_generator.cpp:213-215 | The preview buffer starts all zero. |
| WorldGenerator.DrawSite | tools/simulator/src/sim_cpp/world_generator.cpp:255-265 | Each edge of a site paints the triangle from the site to the edge's ends, in the site's colour. |
| WorldGenerator.DrawSites | tools/simulator/src/sim_cpp/world_generator.cpp:225-267 | The sites are painted in order. |
| WorldGenerator.GenerateLandscapePreview | tools/simulator/src/sim_cpp/world_generator.cpp:211-280 | The preview is a fresh `w*h*4` buffer holding the zeroed image with every site painted, then flipped. This is the corrected version, with the height passed to `draw_triangle`. |
| WorldGenerator.PaintEdgesAlpha | tools/simulator/src/sim_cpp/world_generator.cpp:235 | Painting keeps every alpha byte at 0 or 255. |
| WorldGenerator.PreviewAlpha | tools/simulator/src/sim_cpp/world_generator.cpp:213-265 | Every alpha byte of the painted preview is 0 (untouched) or 255 (painted). |
| WorldGenerator.PreviewPlotsInBuffer | tools/simulator/src/sim_cpp/world_generator.cpp:263 | With the image height, every byte `draw_triangle` plots lies in the preview buffer. |
| WorldGenerator.AsWrittenPreviewOverruns | tools/simulator/src/sim_cpp/world_generator.cpp:263 | With the width passed as the height, a 2 by 1 preview gets a pixel plotted past the end of its 8-byte buffer. |
| BuildLicenses.StripStart | tools/build_licenses.py:16 | Drops exactly the leading white space. |
| BuildLicenses.StripEnd | tools/build_licenses.py:16 | Drops exactly the trailing white space. |
| BuildLicenses.Strip | tools/build_licenses.py:16 | The result is the slice of the line between its leading and trailing white space. Only white space lies before and after the slice, and the slice has no white space at either end. It is empty exactly when the line is all white space. |
| BuildLicenses.StripIdempotent | tools/build_licenses.py:16 | Stripping twice is stripping once. |
| BuildLicenses.Split | tools/build_licenses.py:23 | There is at least one field, no field holds a tab, and joining the fields gives the line back. |
| BuildLicenses.SplitJoin | tools/build_licenses.py:23 | Splitting tab-joined tab-free fields gives the fields back. |
| BuildLicenses.CodeLicense | tools/build_licenses.py:22-26 | A code row is accepted exactly when it has 4 fields, and then prints 3 lines. |
| BuildLicenses.ContentLicense | tools/build_licenses.py:28-32 | A content row is accepted exactly when it has 6 fields, and then prints 3 lines. |
| BuildLicenses.SourceAssetLicense | tools/build_licenses.py:34-38 | A source-asset row is accepted exactly when it has 5 fields, and then prints 3 lines. |
| BuildLicenses.CodeLicenseOfRow | tools/build_licenses.py:22-26 | Prints `name`, `Origin: <origin> ` with its trailing space, and `License: <license>`. |
| BuildLicenses.ContentLicenseOfRow | tools/build_licenses.py:28-32 | Prints `<path>/<asset>`, the origin and the licence, and drops the original file name. |
| BuildLicenses.SourceAssetLicenseOfRow | tools/build_licenses.py:34-38 | Prints `asset`, the origin and the licence, and drops the path. |
| BuildLicenses.CodeLicenseRejects | tools/build_licenses.py:23 | A row with any other number of fields raises. |
| BuildLicenses.FormatRow | tools/build_licenses.py:22-38 | The formatter succeeds exactly when the row has its field count (4 for code, 6 for content, 5 for source assets), and then prints 3 lines. Otherwise the unpacking raises. |
| BuildLicenses.PrintRow | tools/build_licenses.py:16-20 | One turn of the loop after the header: it skips a blank row or one not starting with `Y`, prints the row and a blank line, or raises. |
| BuildLicenses.PrintFile | tools/build_licenses.py:8-20 | The loop with its `skipped_header` flag prints what the table's rows print, and stops at the first row that raises. |
| BuildLicenses.RowsStop | tools/build_licenses.py:11-19 | After a row raises, nothing more is printed. |
| BuildLicenses.RowStepShape | tools/build_licenses.py:16-20 | A row adds one four-line record (three lines and a blank) when accepted, and nothing when rejected. |
| BuildLicenses.RowsOutputShape | tools/build_licenses.py:11-20 | The output is made of records ending in a blank line. With no error there is exactly one record per accepted row. |
| BuildLicenses.AcceptedRows | tools/build_licenses.py:16-18 | Keeps exactly the accepted rows. |
| BuildLicenses.RejectedRowsIgnored | tools/build_licenses.py:16-18 | Empty lines and lines not starting with `Y` leave no trace in the output. |
| BuildLicenses.HeaderIgnored | tools/build_licenses.py:10-14 | The first line is skipped whatever it contains. |
| BuildLicenses.Licences | tools/build_licenses.py:40-56 | The code header comes first. The script completes exactly when none of the three tables raises, and a raise in the code table ends the output right after that table's lines. |
| BuildLicenses.SectionOrder | tools/build_licenses.py:40-56 | See the note after this table. |

Notes on rows that state more than fits in one cell:

- **Meshlets.BuildMeshlets.** Assume the clustering keeps its promises and the
  optimiser keeps its own. Then each output meshlet `i`:
  - copies the vertex offset, vertex count and triangle count;
  - has as its triangle offset the sum of the earlier triangle counts;
  - has the exact box of its unoptimised spans;
  - has its optimised vertex list at its vertex offset;
  - has its optimised triangles packed, with clear padding, at its triangle
    offset.

  The vertex buffer has `last.vertex_offset + last.vertex_count` entries, and
  the packed buffer has one entry per triangle.
- **WorldGenerator.SiteColour.**
  - Land, water and shore get their fixed RGB colours.
  - Mountain and NONE keep the grey taken from the noise value. Grey is
    exactly these two types.
  - Alpha is 255.
- **BuildLicenses.SectionOrder.**
  - When no table raises, the output is, in order:
    - the code header, then the code table's row output;
    - a blank line, the content header, then the content table's row output;
    - a blank line, the source-asset header, then the source-asset table's row output.
  - Each title and each blank separator stands where the number of accepted
    rows before it puts it: the code rows take `4c` lines and the content
    rows `4t`.

## Left out

- **Parsing and meshoptimizer.** cgltf parsing, buffer loading and float
  unpacking are inputs. The attribute values arrive unpacked, and the index
  buffer arrives as a sequence.
- **meshoptimizer's vertex-cache and overdraw optimisation** reorder the
  triangles and are not modelled: they only permute the index buffer. The
  fetch remap, the clustering and the per-meshlet optimiser are inputs or
  function parameters with the assumptions listed above.
- **MeshExtract.RemapKeepsVertices** assumes a permutation remap, which holds
  when every vertex is referenced. **MeshExtract.RemapVertexBuffer** itself
  accepts any remap whose entries are below the vertex count, and lets the
  last store win. meshoptimizer's handling of unreferenced
  vertices (remap value `~0u`) is not modelled.
- **MeshExtract.ExtractIndices** requires the index count to be a multiple of
  3. For any other count the source writes past the end of the index buffer.
- **FixedArrays.FixedArray.Init** does not model a failed `malloc`.
  **FixedArrays.FixedArray.Resize** does not model the growing branch after
  the early return, which the source's own assertions make unreachable.
- **Float arithmetic.** Meshlet bounds are computed over reals, so the IEEE
  rounding of `(max + min) / 2` and `(max - min) / 2` is not modelled.
  **Meshlets.MeshletBoundsExact** assumes finite positions.
- **32-bit wrap-around of the running triangle offset** is excluded by the
  clustering's assumptions rather than modelled.
- **Floats in the file** are opaque 32-bit patterns. Only the NaN and
  signed-zero behaviour of `==` is modelled.
- **File I/O is a byte sequence.**
  - `fopen_s` failures, `fclose` and the hard-coded paths are left out.
  - `size_t` is 8 bytes in the native byte order.
  - A short read makes the model's read-back fail, where the source would
    compare zero or leftover values.
  - `fwrite` of an empty block writes nothing, as modelled, even though the
    source takes the address of element 0 of a null buffer.
- **MeshFile.WriteFile** writes fewer than 2^32 meshes, because the writer's
  `uint32_t` loop counter could not reach any more.
- **The magic is read but never checked** by the read-back. `MeshFile.Decode`
  is a stricter reader of the model's own: it checks the magic and rejects
  trailing bytes.
- **The final `deinit` loop and `cgltf_free`** (main.cpp:528-543) are not
  modelled beyond `Deinit` itself. Nor is the unused `mesh_indices` buffer.
- **World generator: image loading and the Voronoi diagram.** stb_image
  loading, the jc_voronoi diagram, `srand` and the float `remap` of site and
  edge positions are left out. Positions arrive already in pixels, and the
  cell's noise value arrives as its truncated shade.
- **WorldGenerator.ClassifySites** requires distinct site indices and a
  readable three-byte sample. It does not model the assignment of `cell.site`.
- **WorldGenerator.Orient2d** uses unbounded integers, so 32-bit overflow of
  the products is not modelled. Nor are casts of out-of-range floats to
  `int`, or the float loop counters of `draw_triangle`, which are exact for
  image-sized values.
- **WorldGenerator.GenerateLandscapePreview** has these limits:
  - it models the corrected call with the image height (see Findings);
  - it does not model the 32-bit wrap of `image_width * image_height * 4` or
    the `int32_t` cast of the height;
  - it states the image only for a non-zero width.
- **WorldGenerator.Plot and WorldGenerator.DrawTriangle** require an image
  large enough for the pixels they may plot. C has no bounds check, so this
  is the caller's duty.
- **build_licenses.py file handling.** Opening the files and the global
  `out_file` are not modelled; each table is given as its list of lines. A
  missing file is not modelled.
- **A row that fails to unpack** raises in the source, ending the script with
  the lines printed so far. The model reports this as an `Outcome` whose `ok`
  is false.
- **D3D11 and UI code, the other Python scripts and `build_release.py`** are
  not part of this model. `build_release.py` calls a
  `build_licenses.build_licenses()` function that does not exist.

## Findings

| source | as written | input that shows it | evidently intended | confidence | as-written member | corrected member |
|---|---|---|---|---|---|---|
| tools/simulator/src/sim_cpp/world_generator.cpp:263 | `draw_triangle` gets `image_width` as the height, so its clip box allows rows up to `width - 1` | A 2 by 1 preview with the triangle (0,0),(2,0),(0,1), all corners within the 2 by 1 range the diagram is scaled to: pixel (0,1) is plotted at byte 8 of an 8-byte buffer | Pass `image_height`, so every plotted byte lies in the `w*h*4` buffer | not executed | WorldGenerator.AsWrittenPreviewOverruns | WorldGenerator.PreviewPlotsInBuffer |
| tools/model_converter/src/main.cpp:228-233 | Corner 1 is read at `index_map[2]` and corner 2 at `index_map[1]`, so the swap is undone and indices are copied unchanged | The index list (0,1,2) is stored as (0,1,2) | Store each triangle (a,b,c) as (a,c,b) to flip the winding | not executed | MeshExtract.AsWrittenKeepsWinding, MeshExtract.AsWrittenRewoundIff | MeshExtract.ExtractIndicesRewound |
