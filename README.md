# rust_vulkan: mesh preprocessing and frame-loop control, in Dafny

This project models the two pieces of sequential logic inside the
`rust_vulkan` teapot renderer and proves properties about them.

- **Normal synthesis and extent** (`geometry.dfy`, module `Geometry`). This is
  `norms_from_verts_and_index` from `src/geometry.rs`.
  - It walks the index list three at a time.
  - For each triangle it adds the face vector `(v_b - v_a) × (v_c - v_b)` in
    place to the accumulator of each corner.
  - It widens a running `max`/`min` box, which starts at
    `(f32::MIN, …)`/`(f32::MAX, …)`, over the three corners.
  - It returns the normals and `[max, min]`.
  - A short last chunk or an index past the vertex list is the panic the
    source hits; it is modelled as a `Fault`.
  - The closing "normalise" pass changes only copies of the normals. The
    model therefore returns the raw sums, and `normalize` is a parameter whose
    results are discarded.
- **Mesh set-up** (`mesh_setup.dfy`, module `MeshSetup`). This is the code in
  `main` before the loop.
  - The flat position list is chunked into vertices.
  - The translation `-(max + min) / 2` is computed.
  - The largest absolute value of the six raw extent components is found by
    the source's update loop from `f32::MIN`.
  - The scale is `0.3 / largest`. In `f32`, `0.3 / 0.0` is infinity, which
    the model represents as `Scale.Infinite`.
- **Frame loop** (`frame_loop.dfy`, module `FrameLoop`). This is the main
  `loop` of `src/main.rs`.
  - A class `RenderLoop` holds the loop's variables:
    - `recreate_swapchain`;
    - the window dimensions;
    - `previous_frame` (`Now` or `InFlight`);
    - `x_delta`, `y_delta` and `mouse_state`.
  - Its methods update those variables in place, pass by pass.
  - Each pass receives the answers of the window and the Vulkan backend as a
    `Tick`:
    - the window size (present or absent);
    - the recreate, acquire and flush outcomes;
    - the batch of window events.
  - The methods are proved against the pure functions `ApplyEvent`,
    `ApplyEvents`, `Step` and `Run`. The lemmas state the loop's rules about
    those functions.

Coordinates are `real`. Indices are `nat`. Text, I/O and GPU work are not
modelled.

Points where the code's behaviour is easy to misread, and which the model
follows as written:

- The code never normalises the returned normals: the closing pass changes
  only copies.
- The extent starts from the finite `f32::MIN`/`f32::MAX`, not from `∓∞`.
- The loop also returns when the window has no size while a recreation is
  pending, besides returning on a close request.
- Acquisition errors other than `OutOfDate` panic, and so do recreation errors
  other than `UnsupportedDimensions`. Only flush errors are logged and skipped.
- A zero `largest` gives an infinite scale.

## Model

| member | source | states |
|---|---|---|
| Geometry.ComponentWise | src/geometry.rs:10-35 | `Add` adds and `Div` divides each coordinate separately |
| Geometry.HalfUndoesDoubling | src/geometry.rs:10-35 | dividing the sum of a vertex with itself by 2.0 gives the vertex back |
| Geometry.Add | src/geometry.rs:10-21 | definition: coordinate-wise sum of two vertices |
| Geometry.Div | src/geometry.rs:23-35 | definition: each coordinate divided by a non-zero scalar |
| Geometry.Cross | src/geometry.rs:133 | definition: the cross product |
| Geometry.FirstFault | src/geometry.rs:73-97 | definition: the first panic of the chunk walk, a short chunk or the first out-of-range index in the order `a`, `b`, `c`, or none |
| Geometry.FaceNormal | src/geometry.rs:133 | definition: `(v_b - v_a) × (v_c - v_b)` |
| Geometry.AccumulatedNormal | src/geometry.rs:133-146 | definition: the reference per-vertex sum of the face vectors of the first `t` triangles, once per slot the vertex fills |
| Geometry.AddToCorners | src/geometry.rs:136-146 | definition: the face vector added in place at `a`, then `b`, then `c`; keeps the length |
| Geometry.NormalsAfter | src/geometry.rs:58-146 | definition: the accumulator array after the first `t` triangles, starting from all zeros; one entry per vertex |
| Geometry.Visit | src/geometry.rs:102-130 | definition: the strict `>`/`<` widening of `max` and `min` by one point |
| Geometry.VisitAll | src/geometry.rs:99-102 | definition: visiting points in order |
| Geometry.ExtentAfter | src/geometry.rs:65-130 | definition: the extent after the first `t` triangles, starting from the `f32` sentinels |
| Geometry.FirstFaultIffNotMesh | src/geometry.rs:73-97 | the walk hits no panic exactly when the length is a multiple of three and every index names a vertex |
| Geometry.FirstFaultSkips | src/geometry.rs:73-76 | once the first `t` chunks are whole and in range, the first panic is the one in the rest of the list |
| Geometry.FirstFaultIsGenuine | src/geometry.rs:73-97 | the reported panic is real: a short chunk has length 1 or 2, and an out-of-range index occurs in the list and is at least the vertex count |
| Geometry.AddToCornersAt | src/geometry.rs:136-146 | adding a face to the three corners gives vertex `i` its old sum plus the face once per slot it fills |
| Geometry.NormalsAfterAreSums | src/geometry.rs:133-146 | the in-order running sums equal the reference sum over the triangles of each vertex's face-vector shares |
| Geometry.AllNormalsAreSums | src/geometry.rs:133-146 | the same, for every vertex at once |
| Geometry.NormsFromVertsAndIndex | src/geometry.rs:54-162 | fails exactly on a non-mesh, with the first panic; otherwise there is one normal per vertex, each the raw accumulated sum, and `[max, min]` is the extent over all triangles; empty indices give all-zero normals and the sentinel extent |
| Geometry.AccumulateFaces | src/geometry.rs:73-147 | the outer walk: stops at the first fault; otherwise leaves the running sums of all triangles in the array and returns the extent |
| Geometry.WholeScanIsMesh | src/geometry.rs:73-97 | scanning every chunk without a fault means there is no panic |
| Geometry.ScanChunk | src/geometry.rs:76-147 | one pass of the outer closure: its fault is the first panic, or the sums and the extent move on by one triangle |
| Geometry.ChunkFault | src/geometry.rs:75-97 | chunk `t` passes exactly when it is whole and its three indices are in range; its fault is then the first panic of the whole list |
| Geometry.AbsorbTriangle | src/geometry.rs:99-146 | widening over the corners and adding the face vector take the state after `t` triangles to the state after `t + 1` |
| Geometry.WidenExtent | src/geometry.rs:99-130 | the six comparisons over `[v_a, v_b, v_c]` give the extent after visiting the corners in order |
| Geometry.AddFace | src/geometry.rs:136-146 | the nine in-place additions add the face vector to corners `a`, `b`, `c` in turn |
| Geometry.UnreferencedNormalIsZero | src/geometry.rs:58-63 | a vertex no triangle names keeps its all-zero accumulator |
| Geometry.SwappedWindingNegates | src/geometry.rs:133 | swapping the last two indices of a triangle negates its contribution to every vertex |
| Geometry.SharesNegate | src/geometry.rs:136-146 | the per-slot shares of a swapped triangle with a negated face are the negated shares |
| Geometry.CrossOfSwappedEdges | src/geometry.rs:133 | `(c - a) × (b - c) = -((b - a) × (c - b))` |
| Geometry.ReverseWinding | src/geometry.rs:73-76 | the reversed list keeps its length and swaps the last two indices of every whole triangle |
| Geometry.ReverseWindingWellIndexed | src/geometry.rs:73-97 | reversing the winding keeps every index in range |
| Geometry.SwappedTrianglesNegate | src/geometry.rs:133-146 | swapping the last two indices of every triangle negates every accumulated normal |
| Geometry.ReversedWindingNegatesNormals | src/geometry.rs:54-162 | for a mesh, the reversed-winding mesh has every normal negated |
| Geometry.VisitWidens | src/geometry.rs:102-130 | visiting a point covers it and keeps the old box inside the new one |
| Geometry.VisitAllThree | src/geometry.rs:99-102 | visiting three corners is visiting them one after another |
| Geometry.ExtentStep | src/geometry.rs:99-130 | the extent after `t` triangles is the extent after `t - 1` widened by the last triangle's corners in order |
| Geometry.ExtentCoversReferenced | src/geometry.rs:99-130 | every vertex some triangle references has `min <= coordinate <= max` on each axis |
| Geometry.VisitThreeCovers | src/geometry.rs:99-130 | three visits cover each visited point and keep what was covered |
| Geometry.ExtentIsOrdered | src/geometry.rs:99-130 | with at least one triangle, `min <= max` on each axis |
| Geometry.VisitKeepsOrTakes | src/geometry.rs:104-128 | each bound after a visit is the old bound or the visited coordinate |
| Geometry.FirstVisitTakes | src/geometry.rs:65-71 | the first finite point replaces both sentinels |
| Geometry.ExtentAttainedOn | src/geometry.rs:99-130 | with a triangle over finite positions, each coordinate of `max` and `min` is attained by a referenced vertex |
| Geometry.TwoVisitsKeepOrTake | src/geometry.rs:104-128 | after two visits each bound is the earlier bound or one of the two coordinates |
| Geometry.Witness | src/geometry.rs:99-130 | a bound drawn from an attained bound or the chunk's coordinates is attained by an index of the walked prefix |
| Geometry.UnreferencedVerticesIgnored | src/geometry.rs:73-146 | changing vertices no triangle references changes neither the extent nor any normal |
| Geometry.SharesOfCorner | src/geometry.rs:136-146 | a triangle with distinct corners gives each corner its face vector once |
| Geometry.SingleTriangleNormals | src/geometry.rs:133-146 | in a mesh of one triangle with distinct corners, each corner's normal is the face vector |
| Geometry.UnitTriangleNormals | src/geometry.rs:54-162 | the triangle `(0,0,0), (1,0,0), (0,1,0)` gives each corner the normal `(0,0,1)` |
| Geometry.UnitFace | src/geometry.rs:133 | the face vector of that triangle is `(0,0,1)` |
| Geometry.UnitTriangleExtent | src/geometry.rs:99-130 | that triangle's extent is `max = (1,1,0)`, `min = (0,0,0)` |
| MeshSetup.ChunkVertices | src/main.rs:137-144 | succeeds exactly on a multiple of three; vertex `i` is `(p[3i], p[3i+1], p[3i+2])` and there are `len / 3` of them; otherwise it fails with the short chunk's length |
| MeshSetup.Flatten | src/main.rs:137-144 | three coordinates per vertex, in order |
| MeshSetup.ChunkFlattenRoundTrip | src/main.rs:137-144 | chunking the flattened vertices gives them back |
| MeshSetup.FlattenChunkRoundTrip | src/main.rs:137-144 | flattening the chunked positions gives the positions back |
| MeshSetup.Translation | src/main.rs:253-255 | after the translation, `max` and `min` sit symmetrically about the origin |
| MeshSetup.Components | src/main.rs:257-258 | the six raw extent components hold every coordinate of `max` and of `min` |
| MeshSetup.Abs | src/main.rs:261 | definition: `f32::abs` |
| MeshSetup.LargestMagnitude | src/main.rs:257-263 | the result is non-negative, at least the absolute value of each of the six raw components, and equal to one of them |
| MeshSetup.ScaleFor | src/main.rs:264-266 | the scale is infinite exactly when the largest component is zero, and positive otherwise |
| MeshSetup.ScaleReachesTarget | src/main.rs:264-266 | a finite scale brings the largest component to exactly 0.3 |
| MeshSetup.FitTransform | src/main.rs:253-266 | the fit's translation recentres the box, and its scale is `0.3 /` a largest-magnitude raw component |
| MeshSetup.RecentredWithinLargest | src/main.rs:253-263 | a covered coordinate, once recentred, is no farther from 0 than the largest raw component |
| MeshSetup.FitKeepsCoveredPointsInView | src/main.rs:253-266 | a covered point, recentred and scaled, lies within 0.3 of the origin on each axis |
| MeshSetup.SymmetricBoxIsCentred | src/main.rs:253-255 | a box symmetric about the origin gets no translation |
| MeshSetup.SymmetricBoxFit | src/main.rs:257-266 | for the box from `(-2,0,0)` to `(2,0,0)`, any value meeting the contract of the update loop is 2, and the scale is 0.15 |
| MeshSetup.WideBoxCentred | src/main.rs:253-255 | that box gets no translation |
| MeshSetup.EmptyMeshFit | src/main.rs:257-266 | with the sentinel extent of an empty index list, `largest` is `f32::MAX` and the scale is `0.3 / f32::MAX` |
| MeshSetup.ReferencedInView | src/main.rs:253-266 | the fit of a box covering every referenced vertex keeps them all within 0.3 of the origin |
| MeshSetup.PrepareModel | src/main.rs:137-149 | a short position list fails with its chunk; otherwise the set-up fails exactly on a non-mesh, with the first panic of the index walk; on success the vertices flatten back to the positions, normal `i` is the accumulated face-vector sum of vertex `i`, the extent is the box over all triangles, the translation recentres it, the scale is `0.3 /` a largest-magnitude raw component, and every referenced vertex lands within 0.3 of the origin under a finite fit |
| FrameLoop.Initial | src/main.rs:241-249 | before the loop the flag is clear, `previous_frame` is `now`, both deltas are 0 and the button is released |
| FrameLoop.ApplyEvent | src/main.rs:417-441 | definition: the `poll_events` closure on one event |
| FrameLoop.Step | src/main.rs:268-445 | definition: one pass of the loop, branch by branch |
| FrameLoop.ApplyEvents | src/main.rs:413-441 | after a batch, `done` holds exactly when the batch holds `CloseRequested` and the flag is set exactly when it was set or the batch holds `Resized`; `previous_frame` and the size are untouched |
| FrameLoop.Run | src/main.rs:268-445 | a run ends early only on a pass that returned or panicked, and otherwise consumes every tick |
| FrameLoop.RenderLoop.constructor | src/main.rs:241-249 | the loop starts in the initial state |
| FrameLoop.RenderLoop.HandleEvent | src/main.rs:417-441 | the closure's in-place update agrees with `ApplyEvent` |
| FrameLoop.RenderLoop.PollEvents | src/main.rs:413-441 | `poll_events` over a batch agrees with `ApplyEvents`, starting from `done = false` |
| FrameLoop.RenderLoop.Iterate | src/main.rs:268-445 | one pass of the loop body agrees with `Step` |
| FrameLoop.RenderLoop.RunLoop | src/main.rs:268-445 | the loop over a sequence of ticks agrees with `Run` |
| FrameLoop.MissingSizeExits | src/main.rs:271-278 | with the flag set and no window size, `main` returns and nothing changes |
| FrameLoop.UnsupportedKeepsFlag | src/main.rs:271-286 | `UnsupportedDimensions` keeps the flag, records only the size, and acquires, submits and polls nothing |
| FrameLoop.RecreatedExactlyWhenFlagged | src/main.rs:271-301 | a pass replaces the swapchain exactly when the flag was set, a size was there and recreation succeeded |
| FrameLoop.FlagClearedOnlyByRecreation | src/main.rs:271-301 | a set flag is clear after a pass only if that pass replaced the swapchain |
| FrameLoop.SubmitOnlyWhenReady | src/main.rs:271-397 | a submission happens only after the flag is clear and an image was acquired |
| FrameLoop.AcquireOutOfDateSkipsFrame | src/main.rs:271-361 | `OutOfDate` on acquiring, in a pass that began ready or has just replaced the swapchain, sets the flag and ends the pass; only the size a recreation recorded changes besides, nothing is submitted or polled, and the report says whether the swapchain was replaced |
| FrameLoop.FlushSetsPreviousFrame | src/main.rs:399-411 | after a submission, `previous_frame` is the new future on success and `now` on any error; the flag ends set exactly on `OutOfDate` or a `Resized` in the batch |
| FrameLoop.ResizedSetsFlag | src/main.rs:417-427 | a polled `Resized` anywhere in the batch sets the flag |
| FrameLoop.ExitOnlyViaCloseOrMissingSize | src/main.rs:271-278 | `main` returns only on a missing window size or after a polled `CloseRequested` |
| FrameLoop.CloseEndsLoop | src/main.rs:413-444 | a polled `CloseRequested` always ends `main` |
| FrameLoop.DragRotates | src/main.rs:432-437 | while the button stays pressed, `x_delta` grows by `0.01` times the vertical motion and `y_delta` shrinks by `0.01` times the horizontal motion |
| FrameLoop.ReleasedIgnoresMotion | src/main.rs:432-438 | while the button stays released, motion leaves both deltas unchanged |
| FrameLoop.LastButtonWins | src/main.rs:428-431 | the button state after a batch is the last one the batch reports |
| FrameLoop.CloseAfterWholeBatch | src/main.rs:413-444 | `CloseRequested` does not cut the batch short: the state after the batch does not depend on `done` |
| FrameLoop.ApplyEventsSplit | src/main.rs:417-441 | polling a batch `a + b` is polling `a` and then `b` from where `a` left off |
| FrameLoop.PressDragRelease | src/main.rs:428-438 | press, drag, release, move: only the motion while the button was down rotates the model, and the button ends released |
| FrameLoop.BenignStepContinues | src/main.rs:268-445 | a pass with a window size, no panicking error and no close request never ends the loop |
| FrameLoop.BenignRunNeverStops | src/main.rs:268-445 | over such passes the loop neither returns nor panics, and runs every pass |
| FrameLoop.FourPassScenario | src/main.rs:271-411 | the passes acquire-ok, acquire-out-of-date, recreate-unsupported and recreate-ok leave the flag clear, set, set, clear; only the first and last pass submit |

## Left out

- The Vulkan instance, device, queue and swapchain creation, and
  `window_size_dependent_setup`, are foreign library calls. They are not
  modelled; only their outcomes enter, as the `Tick` fields.
- The render pass, shaders, uniform buffers, descriptor sets and command-buffer
  recording are not modelled. Their `unwrap()` calls are assumed to succeed.
- GPU futures are not modelled. `cleanup_finished`, `join`, `then_execute` and
  `then_swapchain_present` are asynchronous device work, so `previous_frame`
  is only the token `Now` or `InFlight`.
- The view, projection and rotation matrices and the aspect ratio are not
  modelled. They are floating-point trigonometry from the cgmath crate.
- The `sqrt` normalisation is not modelled. It needs a square root, and its
  results are discarded by the source anyway. It is the `normalize` parameter.
- `f32` rounding, overflow to infinity, and NaN are not modelled. Coordinates
  are exact `real` numbers, and `f32` casts of the pointer deltas are the
  identity.
- Geometry.Div: requires a non-zero divisor. In `f32` a zero divisor gives
  infinities, but the source only ever divides by `2.0`.
- `u32` indices and the `as usize` cast are `nat`, because no index in the
  model wraps.
- Command-line parsing, OBJ loading, the skybox textures and the unused
  placeholder data are outside the model. The positions and indices are
  parameters.
- The HiDPI conversion of the window size is part of the window backend. The
  `Tick` carries the physical size directly.
- The acquired `image_num` and the framebuffer it selects are not modelled.
- `println!` of a flush error is I/O. Only its effect on `previous_frame` is
  modelled.
- A panic is an error value (`Fault`, `Control.Panic`). Process abort and
  unwinding are not modelled.
