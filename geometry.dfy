/**
  Mesh preprocessing of the renderer (src/geometry.rs): per-vertex normals
  accumulated from the face cross products of an index list, and the bounding
  extent of every vertex a triangle references.

  Coordinates are modelled as `real`; the `f32::MIN`/`f32::MAX` sentinels the
  source starts its extent from are the named constants below.
*/
module Geometry {

  /** Largest finite `f32` (`std::f32::MAX`). */
  const F32_MAX: real := 340282346638528859811704183484516925440.0
  /** Most negative finite `f32` (`std::f32::MIN`). */
  const F32_MIN: real := -F32_MAX

  /** A 3-component tuple; the source's `Vertex.position` and `Normal.normal`. */
  datatype Vector3 = Vector3(x: real, y: real, z: real)
  type Vertex = Vector3
  type Normal = Vector3

  datatype Axis = X | Y | Z

  const Zero: Vector3 := Vector3(0.0, 0.0, 0.0)

  function Coord(v: Vector3, axis: Axis): real {
    match axis
    case X => v.x
    case Y => v.y
    case Z => v.z
  }

  /** `impl ops::Add<Vertex> for Vertex`. */
  function Add(u: Vector3, v: Vector3): Vector3 {
    Vector3(u.x + v.x, u.y + v.y, u.z + v.z)
  }

  /** `impl ops::Div<f32> for Vertex`; only ever called with the divisor 2.0. */
  function Div(v: Vector3, d: real): Vector3
    requires d != 0.0
  {
    Vector3(v.x / d, v.y / d, v.z / d)
  }

  /** cgmath vector subtraction. */
  function Sub(u: Vector3, v: Vector3): Vector3 {
    Vector3(u.x - v.x, u.y - v.y, u.z - v.z)
  }

  function Neg(v: Vector3): Vector3 {
    Vector3(-v.x, -v.y, -v.z)
  }

  /** cgmath `Vector3::cross`. */
  function Cross(u: Vector3, v: Vector3): Vector3 {
    Vector3(u.y * v.z - u.z * v.y, u.z * v.x - u.x * v.z, u.x * v.y - u.y * v.x)
  }

  /** `Add` and `Div` act on each coordinate separately. */
  lemma ComponentWise(u: Vector3, v: Vector3, d: real, axis: Axis)
    requires d != 0.0
    ensures Coord(Add(u, v), axis) == Coord(u, axis) + Coord(v, axis)
    ensures Coord(Div(u, d), axis) == Coord(u, axis) / d
  {
  }

  /** Halving a sum of two equal vertices gives the vertex back: `Div` by 2.0 undoes doubling by `Add`. */
  lemma HalfUndoesDoubling(v: Vector3)
    ensures Div(Add(v, v), 2.0) == v
  {
  }

  datatype Option<T> = None | Some(value: T)

  /** Why the source panics: `chunks(3)` left a short last chunk, or an index is past the vertex list. */
  datatype Fault = ShortChunk(length: nat) | IndexOutOfRange(index: nat)

  datatype Result<T> = Ok(value: T) | Err(fault: Fault)

  // ---------------------------------------------------------------------------
  // Triangles of an index list

  /** One index triple `(i_a, i_b, i_c)`, in its declared winding. */
  datatype Triangle = Triangle(a: nat, b: nat, c: nat)

  /** The `t`-th complete chunk of three indices. */
  function TriangleAt(indices: seq<nat>, t: nat): Triangle
    requires 3 * t + 3 <= |indices|
  {
    Triangle(indices[3 * t], indices[3 * t + 1], indices[3 * t + 2])
  }

  /** The first `t` triangles exist and every index they use names a vertex. */
  predicate WellIndexed(verts: seq<Vertex>, indices: seq<nat>, t: nat) {
    3 * t <= |indices| && forall j :: 0 <= j < 3 * t ==> indices[j] < |verts|
  }

  /** An index list the synthesis accepts: whole triples, every index in range. */
  predicate Mesh(verts: seq<Vertex>, indices: seq<nat>) {
    |indices| % 3 == 0 && forall j :: 0 <= j < |indices| ==> indices[j] < |verts|
  }

  /**
    The panic the source hits first while walking `indices` in chunks of three
    over `n` vertices: a short last chunk, or else the first out-of-range index
    in the order `a[0]`, `a[1]`, `a[2]` of the first bad chunk.
  */
  function FirstFault(n: nat, indices: seq<nat>): Option<Fault>
    decreases |indices|
  {
    if |indices| == 0 then None
    else if |indices| < 3 then Some(ShortChunk(|indices|))
    else if indices[0] >= n then Some(IndexOutOfRange(indices[0]))
    else if indices[1] >= n then Some(IndexOutOfRange(indices[1]))
    else if indices[2] >= n then Some(IndexOutOfRange(indices[2]))
    else FirstFault(n, indices[3..])
  }

  /** The synthesis faults exactly on index lists that are not a `Mesh`. */
  lemma {:induction false} FirstFaultIffNotMesh(verts: seq<Vertex>, indices: seq<nat>)
    ensures FirstFault(|verts|, indices).None? <==> Mesh(verts, indices)
    decreases |indices|
  {
    if |indices| >= 3 {
      var rest := indices[3..];
      FirstFaultIffNotMesh(verts, rest);
      assert |rest| % 3 == |indices| % 3;
      assert forall j :: 3 <= j < |indices| ==> indices[j] == rest[j - 3];
    }
  }

  /** Triangles whose indices are all in range are walked past without a fault. */
  lemma {:induction false} FirstFaultSkips(n: nat, indices: seq<nat>, t: nat)
    requires 3 * t <= |indices|
    requires forall j :: 0 <= j < 3 * t ==> indices[j] < n
    ensures FirstFault(n, indices) == FirstFault(n, indices[3 * t..])
  {
    if t > 0 {
      var rest := indices[3..];
      FirstFaultSkips(n, rest, t - 1);
      assert rest[3 * (t - 1)..] == indices[3 * t..];
    }
  }

  /** A fault names a real defect of the input. */
  lemma {:induction false} FirstFaultIsGenuine(n: nat, indices: seq<nat>)
    requires FirstFault(n, indices).Some?
    ensures match FirstFault(n, indices).value
            case ShortChunk(len) => 0 < len < 3 && |indices| % 3 == len
            case IndexOutOfRange(i) => n <= i && i in indices
    decreases |indices|
  {
    if |indices| >= 3 && indices[0] < n && indices[1] < n && indices[2] < n {
      FirstFaultIsGenuine(n, indices[3..]);
      assert |indices[3..]| % 3 == |indices| % 3;
      match FirstFault(n, indices[3..]).value
      case ShortChunk(_) =>
      case IndexOutOfRange(i) =>
        assert i in indices[3..];
    }
  }

  // ---------------------------------------------------------------------------
  // Normals

  /** Face vector `(v_b - v_a) × (v_c - v_b)` of a triangle (src/geometry.rs:133). */
  function FaceNormal(verts: seq<Vertex>, tri: Triangle): Vector3
    requires tri.a < |verts| && tri.b < |verts| && tri.c < |verts|
  {
    Cross(Sub(verts[tri.b], verts[tri.a]), Sub(verts[tri.c], verts[tri.b]))
  }

  /** The face vector if the slot names the vertex, nothing otherwise. */
  function SlotShare(hit: bool, face: Vector3): Vector3 {
    if hit then face else Zero
  }

  /** `face` once for each of the slots `a`, `b`, `c` of `tri` that names vertex `i`. */
  function Shares(tri: Triangle, i: nat, face: Vector3): Vector3 {
    Add(Add(SlotShare(tri.a == i, face), SlotShare(tri.b == i, face)), SlotShare(tri.c == i, face))
  }

  /** What one triangle adds to vertex `i`'s accumulator. */
  function Contribution(verts: seq<Vertex>, tri: Triangle, i: nat): Vector3
    requires tri.a < |verts| && tri.b < |verts| && tri.c < |verts|
  {
    Shares(tri, i, FaceNormal(verts, tri))
  }

  /**
    Reference definition of the accumulated normal of vertex `i` after the
    first `t` triangles: the sum of the triangles' contributions to `i`.
  */
  function AccumulatedNormal(verts: seq<Vertex>, indices: seq<nat>, t: nat, i: nat): Vector3
    requires WellIndexed(verts, indices, t)
  {
    if t == 0 then Zero
    else Add(AccumulatedNormal(verts, indices, t - 1, i), Contribution(verts, TriangleAt(indices, t - 1), i))
  }

  /** The three in-place additions of `face`, to the accumulators of `a`, then `b`, then `c`. */
  function AddToCorners(sums: seq<Normal>, tri: Triangle, face: Vector3): (r: seq<Normal>)
    requires tri.a < |sums| && tri.b < |sums| && tri.c < |sums|
    ensures |r| == |sums|
  {
    var afterA := sums[tri.a := Add(sums[tri.a], face)];
    var afterB := afterA[tri.b := Add(afterA[tri.b], face)];
    afterB[tri.c := Add(afterB[tri.c], face)]
  }

  /** The accumulator array after the first `t` triangles, update by update. */
  function NormalsAfter(verts: seq<Vertex>, indices: seq<nat>, t: nat): (r: seq<Normal>)
    requires WellIndexed(verts, indices, t)
    ensures |r| == |verts|
  {
    if t == 0 then seq(|verts|, _ => Zero)
    else
      var tri := TriangleAt(indices, t - 1);
      AddToCorners(NormalsAfter(verts, indices, t - 1), tri, FaceNormal(verts, tri))
  }

  /** Each vertex gains the face vector once for every slot of the triangle that names it. */
  lemma AddToCornersAt(sums: seq<Normal>, tri: Triangle, face: Vector3, i: nat)
    requires tri.a < |sums| && tri.b < |sums| && tri.c < |sums| && i < |sums|
    ensures AddToCorners(sums, tri, face)[i] == Add(sums[i], Shares(tri, i, face))
  {
    var afterA := sums[tri.a := Add(sums[tri.a], face)];
    var afterB := afterA[tri.b := Add(afterA[tri.b], face)];
    assert afterA[i] == if tri.a == i then Add(sums[i], face) else sums[i];
    assert afterB[i] == if tri.b == i then Add(afterA[i], face) else afterA[i];
    AddSlots(sums[i], face, tri.a == i, tri.b == i, tri.c == i);
  }

  /** Adding `face` once per hit slot, one slot at a time, adds the slots' shares. */
  lemma AddSlots(v: Vector3, face: Vector3, hitA: bool, hitB: bool, hitC: bool)
    ensures
      var afterA := if hitA then Add(v, face) else v;
      var afterB := if hitB then Add(afterA, face) else afterA;
      var afterC := if hitC then Add(afterB, face) else afterB;
      afterC == Add(v, Add(Add(SlotShare(hitA, face), SlotShare(hitB, face)), SlotShare(hitC, face)))
  {
  }

  /**
    The accumulator array built update by update holds, for every vertex, the
    sum of the contributions of the triangles so far.
  */
  lemma {:induction false} NormalsAfterAreSums(verts: seq<Vertex>, indices: seq<nat>, t: nat, i: nat)
    requires WellIndexed(verts, indices, t) && i < |verts|
    ensures NormalsAfter(verts, indices, t)[i] == AccumulatedNormal(verts, indices, t, i)
  {
    if t > 0 {
      NormalsAfterAreSums(verts, indices, t - 1, i);
      var tri := TriangleAt(indices, t - 1);
      AddToCornersAt(NormalsAfter(verts, indices, t - 1), tri, FaceNormal(verts, tri), i);
    }
  }

  // ---------------------------------------------------------------------------
  // Extent

  /** The source's `[max_verts, min_verts]`: `max` is element 0, `min` element 1. */
  datatype Extent = Extent(max: Vertex, min: Vertex)

  /** `max = (f32::MIN, ...)`, `min = (f32::MAX, ...)` before any vertex is seen. */
  const InitialExtent: Extent :=
    Extent(Vector3(F32_MIN, F32_MIN, F32_MIN), Vector3(F32_MAX, F32_MAX, F32_MAX))

  /** One pass of the inner `for_each`: strict comparisons widen the extent to `p`. */
  function Visit(e: Extent, p: Vertex): Extent {
    Extent(
      Vector3(if p.x > e.max.x then p.x else e.max.x,
              if p.y > e.max.y then p.y else e.max.y,
              if p.z > e.max.z then p.z else e.max.z),
      Vector3(if p.x < e.min.x then p.x else e.min.x,
              if p.y < e.min.y then p.y else e.min.y,
              if p.z < e.min.z then p.z else e.min.z))
  }

  /** Visits `ps` in order. */
  function VisitAll(e: Extent, ps: seq<Vertex>): Extent
    decreases |ps|
  {
    if ps == [] then e else Visit(VisitAll(e, ps[..|ps| - 1]), ps[|ps| - 1])
  }

  /** The three corners of a triangle, in the order `[v_a, v_b, v_c]`. */
  function Corners(verts: seq<Vertex>, tri: Triangle): seq<Vertex>
    requires tri.a < |verts| && tri.b < |verts| && tri.c < |verts|
  {
    [verts[tri.a], verts[tri.b], verts[tri.c]]
  }

  /** The extent after the first `t` triangles. */
  function ExtentAfter(verts: seq<Vertex>, indices: seq<nat>, t: nat): Extent
    requires WellIndexed(verts, indices, t)
  {
    if t == 0 then InitialExtent
    else VisitAll(ExtentAfter(verts, indices, t - 1), Corners(verts, TriangleAt(indices, t - 1)))
  }

  /** `p` lies inside the box of `e` on every axis. */
  predicate Covers(e: Extent, p: Vertex) {
    e.min.x <= p.x <= e.max.x && e.min.y <= p.y <= e.max.y && e.min.z <= p.z <= e.max.z
  }

  /** The box of `outer` includes the box of `inner`. */
  predicate Encloses(outer: Extent, inner: Extent) {
    outer.min.x <= inner.min.x && inner.max.x <= outer.max.x &&
    outer.min.y <= inner.min.y && inner.max.y <= outer.max.y &&
    outer.min.z <= inner.min.z && inner.max.z <= outer.max.z
  }

  /** A finite `f32` position: no coordinate below `f32::MIN` or above `f32::MAX`. */
  predicate FiniteF32(p: Vertex) {
    F32_MIN <= p.x <= F32_MAX && F32_MIN <= p.y <= F32_MAX && F32_MIN <= p.z <= F32_MAX
  }

  // ---------------------------------------------------------------------------
  // The synthesis

  /** `norms_from_verts_and_index`'s pair of results. */
  datatype Synthesis = Synthesis(normals: seq<Normal>, extent: Extent)

  /**
    `norms_from_verts_and_index` (src/geometry.rs:54-162). Walks `indices` three
    at a time, widens the extent over the three corners, and adds the face
    vector to the accumulator of each corner in place. The closing
    normalisation maps each normal into a copy and changes only the copy, so
    the result holds the raw sums; `normalize` stands for that `v / |v|` step.
  */
  method NormsFromVertsAndIndex(verts: seq<Vertex>, indices: seq<nat>, normalize: Vector3 -> Vector3)
    returns (r: Result<Synthesis>)
    ensures r.Err? <==> !Mesh(verts, indices)
    ensures r.Err? ==> FirstFault(|verts|, indices) == Some(r.fault)
    ensures r.Ok? ==>
      var t := |indices| / 3;
      && WellIndexed(verts, indices, t)
      && |r.value.normals| == |verts|
      && (forall i :: 0 <= i < |verts| ==> r.value.normals[i] == AccumulatedNormal(verts, indices, t, i))
      && r.value.extent == ExtentAfter(verts, indices, t)
    ensures |indices| == 0 ==>
      r == Ok(Synthesis(seq(|verts|, _ => Zero), InitialExtent))
  {
    FirstFaultIffNotMesh(verts, indices);
    var normals := new Normal[|verts|](_ => Zero);
    assert normals[..] == NormalsAfter(verts, indices, 0);
    var scan; ghost var count;
    scan, count := AccumulateFaces(verts, indices, normals);
    if scan.Err? {
      return Err(scan.fault);
    }
    ghost var sums := normals[..];

    // each normal is normalised into a copy; the accumulator keeps the raw sum
    var j := 0;
    while j < normals.Length
      invariant 0 <= j <= normals.Length
      invariant normals[..] == sums
    {
      var v := normals[j];
      v := normalize(v);
      j := j + 1;
    }
    assert count == |indices| / 3;
    AllNormalsAreSums(verts, indices, count);
    r := Ok(Synthesis(normals[..], scan.value));
  }

  /** `NormalsAfterAreSums` for every vertex at once. */
  lemma AllNormalsAreSums(verts: seq<Vertex>, indices: seq<nat>, t: nat)
    requires WellIndexed(verts, indices, t)
    ensures forall i :: 0 <= i < |verts| ==> NormalsAfter(verts, indices, t)[i] == AccumulatedNormal(verts, indices, t, i)
  {
    forall i | 0 <= i < |verts|
      ensures NormalsAfter(verts, indices, t)[i] == AccumulatedNormal(verts, indices, t, i)
    {
      NormalsAfterAreSums(verts, indices, t, i);
    }
  }

  /**
    The outer `for_each` over `indices.chunks(3)`: stops at the first short
    chunk or out-of-range index, and otherwise leaves the raw sums in
    `normals` and returns the extent.
  */
  method AccumulateFaces(verts: seq<Vertex>, indices: seq<nat>, normals: array<Normal>)
    returns (r: Result<Extent>, ghost count: nat)
    requires normals.Length == |verts|
    requires normals[..] == NormalsAfter(verts, indices, 0)
    modifies normals
    ensures r.Err? <==> FirstFault(|verts|, indices).Some?
    ensures r.Err? ==> FirstFault(|verts|, indices) == Some(r.fault)
    ensures r.Ok? ==>
      && 3 * count == |indices|
      && WellIndexed(verts, indices, count)
      && normals[..] == NormalsAfter(verts, indices, count)
      && r.value == ExtentAfter(verts, indices, count)
  {
    var e := InitialExtent;
    var t := 0;
    while 3 * t < |indices|
      invariant WellIndexed(verts, indices, t)
      invariant normals[..] == NormalsAfter(verts, indices, t)
      invariant e == ExtentAfter(verts, indices, t)
    {
      var step := ScanChunk(verts, indices, t, normals, e);
      if step.Err? {
        return Err(step.fault), t;
      }
      e, t := step.value, t + 1;
    }
    WholeScanIsMesh(verts, indices, t);
    r, count := Ok(e), t;
  }

  /** Scanning every chunk without a fault means the list is a mesh. */
  lemma WholeScanIsMesh(verts: seq<Vertex>, indices: seq<nat>, t: nat)
    requires WellIndexed(verts, indices, t) && |indices| <= 3 * t
    ensures FirstFault(|verts|, indices).None?
  {
    FirstFaultIffNotMesh(verts, indices);
  }

  /**
    One pass of the outer `for_each` for the `t`-th chunk: report its fault,
    or absorb its triangle into the sums and the extent.
  */
  method ScanChunk(verts: seq<Vertex>, indices: seq<nat>, t: nat, normals: array<Normal>, e: Extent)
    returns (r: Result<Extent>)
    requires WellIndexed(verts, indices, t) && 3 * t < |indices|
    requires normals.Length == |verts|
    requires normals[..] == NormalsAfter(verts, indices, t)
    requires e == ExtentAfter(verts, indices, t)
    modifies normals
    ensures r.Err? ==> FirstFault(|verts|, indices) == Some(r.fault)
    ensures r.Ok? ==>
      && WellIndexed(verts, indices, t + 1)
      && normals[..] == NormalsAfter(verts, indices, t + 1)
      && r.value == ExtentAfter(verts, indices, t + 1)
  {
    var fault := ChunkFault(|verts|, indices, t);
    if fault.Some? {
      return Err(fault.value);
    }
    var widened := AbsorbTriangle(verts, indices, t, normals, e);
    return Ok(widened);
  }

  /**
    Reading the `t`-th chunk: `a[0]`, `a[1]`, `a[2]` panic on a short chunk,
    then `model_verts[i_a]`, `[i_b]`, `[i_c]` panic on an index past the vertex
    list. Once the earlier chunks have passed, that is the first fault of the
    whole list.
  */
  method ChunkFault(n: nat, indices: seq<nat>, t: nat) returns (f: Option<Fault>)
    requires 3 * t < |indices|
    requires forall j :: 0 <= j < 3 * t ==> indices[j] < n
    ensures f.None? <==> 3 * t + 3 <= |indices| && indices[3 * t] < n && indices[3 * t + 1] < n && indices[3 * t + 2] < n
    ensures f.Some? ==> FirstFault(n, indices) == f
  {
    FirstFaultSkips(n, indices, t);
    var k := 3 * t;
    if |indices| < k + 3 {
      return Some(ShortChunk(|indices| - k));
    }
    var ia, ib, ic := indices[k], indices[k + 1], indices[k + 2];
    if ia >= n {
      return Some(IndexOutOfRange(ia));
    }
    if ib >= n {
      return Some(IndexOutOfRange(ib));
    }
    if ic >= n {
      return Some(IndexOutOfRange(ic));
    }
    return None;
  }

  /**
    The body of the outer `for_each` for the `t`-th triangle, once its three
    indices are known to be in range: widen the extent over its corners, then
    add its face vector to the accumulators of its corners.
  */
  method AbsorbTriangle(verts: seq<Vertex>, indices: seq<nat>, t: nat, normals: array<Normal>, e: Extent)
    returns (widened: Extent)
    requires WellIndexed(verts, indices, t) && 3 * t + 3 <= |indices|
    requires indices[3 * t] < |verts| && indices[3 * t + 1] < |verts| && indices[3 * t + 2] < |verts|
    requires normals.Length == |verts|
    requires normals[..] == NormalsAfter(verts, indices, t)
    requires e == ExtentAfter(verts, indices, t)
    modifies normals
    ensures WellIndexed(verts, indices, t + 1)
    ensures normals[..] == NormalsAfter(verts, indices, t + 1)
    ensures widened == ExtentAfter(verts, indices, t + 1)
  {
    var tri := TriangleAt(indices, t);
    assert WellIndexed(verts, indices, t + 1);
    widened := WidenExtent(e, Corners(verts, tri));
    assert widened == ExtentAfter(verts, indices, t + 1);
    var cross := FaceNormal(verts, tri);
    AddFace(normals, tri, cross);
    assert normals[..] == NormalsAfter(verts, indices, t + 1);
  }

  /**
    The inner `for_each` over `[v_a, v_b, v_c]` (src/geometry.rs:99-130): each
    coordinate below `min` or above `max` replaces it.
  */
  method WidenExtent(e: Extent, corners: seq<Vertex>) returns (r: Extent)
    ensures r == VisitAll(e, corners)
  {
    var minVerts, maxVerts := e.min, e.max;
    var q := 0;
    while q < |corners|
      invariant 0 <= q <= |corners|
      invariant Extent(maxVerts, minVerts) == VisitAll(e, corners[..q])
    {
      var p := corners[q];
      ghost var before := Extent(maxVerts, minVerts);
      if p.x < minVerts.x { minVerts := minVerts.(x := p.x); }
      if p.x > maxVerts.x { maxVerts := maxVerts.(x := p.x); }
      if p.y < minVerts.y { minVerts := minVerts.(y := p.y); }
      if p.y > maxVerts.y { maxVerts := maxVerts.(y := p.y); }
      if p.z < minVerts.z { minVerts := minVerts.(z := p.z); }
      if p.z > maxVerts.z { maxVerts := maxVerts.(z := p.z); }
      assert Extent(maxVerts, minVerts) == Visit(before, p);
      assert corners[..q + 1][..q] == corners[..q];
      q := q + 1;
    }
    assert corners[..q] == corners;
    r := Extent(maxVerts, minVerts);
  }

  /**
    The running-sum update (src/geometry.rs:136-146): the face vector is added
    in place to the accumulators of `a`, `b` and `c`, once per slot.
  */
  method AddFace(normals: array<Normal>, tri: Triangle, cross: Vector3)
    requires tri.a < normals.Length && tri.b < normals.Length && tri.c < normals.Length
    modifies normals
    ensures normals[..] == AddToCorners(old(normals[..]), tri, cross)
  {
    normals[tri.a] := Add(normals[tri.a], cross);
    normals[tri.b] := Add(normals[tri.b], cross);
    normals[tri.c] := Add(normals[tri.c], cross);
  }

  // ---------------------------------------------------------------------------
  // Properties of the normals

  /** A vertex no triangle names keeps its all-zero accumulator. */
  lemma {:induction false} UnreferencedNormalIsZero(verts: seq<Vertex>, indices: seq<nat>, t: nat, i: nat)
    requires WellIndexed(verts, indices, t)
    requires forall j :: 0 <= j < 3 * t ==> indices[j] != i
    ensures AccumulatedNormal(verts, indices, t, i) == Zero
  {
    if t > 0 {
      UnreferencedNormalIsZero(verts, indices, t - 1, i);
    }
  }

  /** A triangle with its last two indices swapped. */
  function SwapWinding(tri: Triangle): Triangle {
    Triangle(tri.a, tri.c, tri.b)
  }

  /** Swapping the last two indices of a triangle negates its contribution to every vertex. */
  lemma SwappedWindingNegates(verts: seq<Vertex>, tri: Triangle, i: nat)
    requires tri.a < |verts| && tri.b < |verts| && tri.c < |verts|
    ensures Contribution(verts, SwapWinding(tri), i) == Neg(Contribution(verts, tri, i))
  {
    var face := FaceNormal(verts, tri);
    assert FaceNormal(verts, SwapWinding(tri)) == Neg(face) by {
      CrossOfSwappedEdges(verts[tri.a], verts[tri.b], verts[tri.c]);
    }
    SharesNegate(tri, i, face);
  }

  /** The swapped triangle's shares of the negated face vector are the negated shares. */
  lemma SharesNegate(tri: Triangle, i: nat, face: Vector3)
    ensures Shares(SwapWinding(tri), i, Neg(face)) == Neg(Shares(tri, i, face))
  {
  }

  /** `(c - a) × (b - c) == -((b - a) × (c - b))`, one component at a time. */
  lemma CrossOfSwappedEdges(a: Vector3, b: Vector3, c: Vector3)
    ensures Cross(Sub(c, a), Sub(b, c)) == Neg(Cross(Sub(b, a), Sub(c, b)))
  {
    var u, v := Sub(b, a), Sub(c, b);
    var u', v' := Sub(c, a), Sub(b, c);
    assert u' == Add(u, v) && v' == Neg(v);
    // (u + v) × (-v) = -(u × v) - v × v = -(u × v)
    assert (u.y + v.y) * (-v.z) - (u.z + v.z) * (-v.y) == -(u.y * v.z - u.z * v.y);
    assert (u.z + v.z) * (-v.x) - (u.x + v.x) * (-v.z) == -(u.z * v.x - u.x * v.z);
    assert (u.x + v.x) * (-v.y) - (u.y + v.y) * (-v.x) == -(u.x * v.y - u.y * v.x);
  }

  /** The index list with every triangle's last two indices swapped. */
  function ReverseWinding(indices: seq<nat>): (r: seq<nat>)
    requires |indices| % 3 == 0
    ensures |r| == |indices|
    ensures forall t :: 0 <= t < |indices| / 3 ==> TriangleAt(r, t) == SwapWinding(TriangleAt(indices, t))
  {
    seq(|indices|, j requires 0 <= j < |indices| =>
      if j % 3 == 1 then indices[j + 1] else if j % 3 == 2 then indices[j - 1] else indices[j])
  }

  /** Every index of the reversed list is one of the original triangle's, so it still names a vertex. */
  lemma ReverseWindingWellIndexed(verts: seq<Vertex>, indices: seq<nat>, t: nat)
    requires Mesh(verts, indices)
    requires t <= |indices| / 3
    ensures WellIndexed(verts, ReverseWinding(indices), t)
  {
    var rev := ReverseWinding(indices);
    forall j | 0 <= j < 3 * t ensures rev[j] < |verts| {
      var s := j / 3;
      assert TriangleAt(rev, s) == SwapWinding(TriangleAt(indices, s));
    }
  }

  lemma NegAdd(u: Vector3, v: Vector3)
    ensures Neg(Add(u, v)) == Add(Neg(u), Neg(v))
  {
  }

  /**
    If every triangle of `swapped` is the matching triangle of `indices` with
    its winding swapped, the accumulated normals of `swapped` are the negated
    normals of `indices`.
  */
  lemma {:induction false} SwappedTrianglesNegate(verts: seq<Vertex>, indices: seq<nat>, swapped: seq<nat>, t: nat, i: nat)
    requires WellIndexed(verts, indices, t) && WellIndexed(verts, swapped, t)
    requires forall s :: 0 <= s < t ==> TriangleAt(swapped, s) == SwapWinding(TriangleAt(indices, s))
    ensures AccumulatedNormal(verts, swapped, t, i) == Neg(AccumulatedNormal(verts, indices, t, i))
  {
    if t > 0 {
      SwappedTrianglesNegate(verts, indices, swapped, t - 1, i);
      var tri := TriangleAt(indices, t - 1);
      var before, before' := AccumulatedNormal(verts, indices, t - 1, i), AccumulatedNormal(verts, swapped, t - 1, i);
      var share, share' := Contribution(verts, tri, i), Contribution(verts, TriangleAt(swapped, t - 1), i);
      assert before' == Neg(before);
      assert share' == Neg(share) by {
        SwappedWindingNegates(verts, tri, i);
      }
      NegAdd(before, share);
    }
  }

  /** Reversing the winding of every triangle negates every accumulated normal. */
  lemma ReversedWindingNegatesNormals(verts: seq<Vertex>, indices: seq<nat>, i: nat)
    requires Mesh(verts, indices)
    ensures WellIndexed(verts, ReverseWinding(indices), |indices| / 3)
    ensures AccumulatedNormal(verts, ReverseWinding(indices), |indices| / 3, i)
         == Neg(AccumulatedNormal(verts, indices, |indices| / 3, i))
  {
    var t := |indices| / 3;
    ReverseWindingWellIndexed(verts, indices, t);
    SwappedTrianglesNegate(verts, indices, ReverseWinding(indices), t, i);
  }

  // ---------------------------------------------------------------------------
  // Properties of the extent

  /** One visit covers its point and keeps everything the extent covered before. */
  lemma VisitWidens(e: Extent, p: Vertex)
    ensures Covers(Visit(e, p), p) && Encloses(Visit(e, p), e)
  {
  }

  lemma VisitAllThree(e: Extent, ps: seq<Vertex>)
    requires |ps| == 3
    ensures VisitAll(e, ps) == Visit(Visit(Visit(e, ps[0]), ps[1]), ps[2])
  {
    assert ps[..2][..1] == ps[..1];
    assert ps[..1][..0] == [];
    assert VisitAll(e, ps[..1]) == Visit(e, ps[0]);
    assert VisitAll(e, ps[..2]) == Visit(Visit(e, ps[0]), ps[1]);
  }

  /** The extent after `t` triangles is the one after `t - 1` widened by the last triangle's corners in order. */
  lemma ExtentStep(verts: seq<Vertex>, indices: seq<nat>, t: nat)
    requires WellIndexed(verts, indices, t) && t > 0
    ensures var k := 3 * (t - 1);
      ExtentAfter(verts, indices, t) ==
        Visit(Visit(Visit(ExtentAfter(verts, indices, t - 1), verts[indices[k]]), verts[indices[k + 1]]), verts[indices[k + 2]])
  {
    VisitAllThree(ExtentAfter(verts, indices, t - 1), Corners(verts, TriangleAt(indices, t - 1)));
  }

  /** For every vertex referenced by one of the first `t` triangles, `min <= coordinate <= max` on each axis. */
  lemma {:induction false} ExtentCoversReferenced(verts: seq<Vertex>, indices: seq<nat>, t: nat)
    requires WellIndexed(verts, indices, t)
    ensures forall j :: 0 <= j < 3 * t ==> Covers(ExtentAfter(verts, indices, t), verts[indices[j]])
  {
    if t > 0 {
      ExtentCoversReferenced(verts, indices, t - 1);
      var e0 := ExtentAfter(verts, indices, t - 1);
      var k := 3 * (t - 1);
      ExtentStep(verts, indices, t);
      var e := ExtentAfter(verts, indices, t);
      VisitThreeCovers(e0, verts[indices[k]], verts[indices[k + 1]], verts[indices[k + 2]]);
      forall j | 0 <= j < 3 * t
        ensures Covers(e, verts[indices[j]])
      {
        if j < k {
          assert Covers(e0, verts[indices[j]]);
        }
      }
    }
  }

  /** Visiting three points covers each of them and keeps covering what was covered before. */
  lemma VisitThreeCovers(e0: Extent, pa: Vertex, pb: Vertex, pc: Vertex)
    ensures var e := Visit(Visit(Visit(e0, pa), pb), pc);
      Encloses(e, e0) && Covers(e, pa) && Covers(e, pb) && Covers(e, pc)
  {
    var ea := Visit(e0, pa);
    var eb := Visit(ea, pb);
    VisitWidens(e0, pa);
    VisitWidens(ea, pb);
    VisitWidens(eb, pc);
  }

  /** With at least one triangle, `min <= max` on every axis. */
  lemma ExtentIsOrdered(verts: seq<Vertex>, indices: seq<nat>, t: nat)
    requires WellIndexed(verts, indices, t) && t > 0
    ensures var e := ExtentAfter(verts, indices, t);
      e.min.x <= e.max.x && e.min.y <= e.max.y && e.min.z <= e.max.z
  {
    ExtentCoversReferenced(verts, indices, t);
    assert Covers(ExtentAfter(verts, indices, t), verts[indices[0]]);
  }

  /** Each coordinate of a visited extent is the old one or the visited point's. */
  lemma VisitKeepsOrTakes(e: Extent, p: Vertex, axis: Axis)
    ensures Coord(Visit(e, p).max, axis) == Coord(e.max, axis) || Coord(Visit(e, p).max, axis) == Coord(p, axis)
    ensures Coord(Visit(e, p).min, axis) == Coord(e.min, axis) || Coord(Visit(e, p).min, axis) == Coord(p, axis)
  {
  }

  /** The first finite point visited replaces both sentinels. */
  lemma FirstVisitTakes(p: Vertex, axis: Axis)
    requires FiniteF32(p)
    ensures Coord(Visit(InitialExtent, p).max, axis) == Coord(p, axis)
    ensures Coord(Visit(InitialExtent, p).min, axis) == Coord(p, axis)
  {
  }

  /**
    With at least one triangle over finite positions, each coordinate of `max`
    and of `min` is the coordinate of some referenced vertex.
  */
  lemma {:induction false} ExtentAttainedOn(verts: seq<Vertex>, indices: seq<nat>, t: nat, axis: Axis)
    requires WellIndexed(verts, indices, t) && t > 0
    requires forall j :: 0 <= j < 3 * t ==> FiniteF32(verts[indices[j]])
    ensures exists j :: (0 <= j < 3 * t &&
      Coord(verts[indices[j]], axis) == Coord(ExtentAfter(verts, indices, t).max, axis))
    ensures exists j :: (0 <= j < 3 * t &&
      Coord(verts[indices[j]], axis) == Coord(ExtentAfter(verts, indices, t).min, axis))
  {
    var e0 := ExtentAfter(verts, indices, t - 1);
    var k := 3 * (t - 1);
    var pa, pb, pc := verts[indices[k]], verts[indices[k + 1]], verts[indices[k + 2]];
    var ea := Visit(e0, pa);
    var e := ExtentAfter(verts, indices, t);
    ExtentStep(verts, indices, t);
    if t == 1 {
      FirstVisitTakes(pa, axis);
    } else {
      ExtentAttainedOn(verts, indices, t - 1, axis);
      VisitKeepsOrTakes(e0, pa, axis);
    }
    TwoVisitsKeepOrTake(ea, pb, pc, axis);
    var hi := Witness(verts, indices, k, Coord(ea.max, axis), Coord(e.max, axis), axis);
    var lo := Witness(verts, indices, k, Coord(ea.min, axis), Coord(e.min, axis), axis);
  }

  /** After two visits each bound on an axis is the earlier one or a visited point's. */
  lemma TwoVisitsKeepOrTake(ea: Extent, pb: Vertex, pc: Vertex, axis: Axis)
    ensures var m := Coord(Visit(Visit(ea, pb), pc).max, axis);
      m == Coord(ea.max, axis) || m == Coord(pb, axis) || m == Coord(pc, axis)
    ensures var m := Coord(Visit(Visit(ea, pb), pc).min, axis);
      m == Coord(ea.min, axis) || m == Coord(pb, axis) || m == Coord(pc, axis)
  {
    VisitKeepsOrTakes(ea, pb, axis);
    VisitKeepsOrTakes(Visit(ea, pb), pc, axis);
  }

  /**
    A bound that is the earlier bound (attained by an index up to `k`) or the
    coordinate at index `k + 1` or `k + 2` is attained by an index up to `k + 2`.
  */
  lemma Witness(verts: seq<Vertex>, indices: seq<nat>, k: nat, before: real, after: real, axis: Axis)
    returns (w: nat)
    requires k + 3 <= |indices| && forall j :: 0 <= j < k + 3 ==> indices[j] < |verts|
    requires exists j :: 0 <= j <= k && Coord(verts[indices[j]], axis) == before
    requires after == before || after == Coord(verts[indices[k + 1]], axis) || after == Coord(verts[indices[k + 2]], axis)
    ensures w < k + 3 && Coord(verts[indices[w]], axis) == after
  {
    if after == Coord(verts[indices[k + 1]], axis) {
      w := k + 1;
    } else if after == Coord(verts[indices[k + 2]], axis) {
      w := k + 2;
    } else {
      w :| 0 <= w <= k && Coord(verts[indices[w]], axis) == before;
    }
  }

  /** Vertices no triangle references influence neither the extent nor any normal. */
  lemma {:induction false} UnreferencedVerticesIgnored(verts: seq<Vertex>, verts': seq<Vertex>, indices: seq<nat>, t: nat)
    requires |verts| == |verts'|
    requires WellIndexed(verts, indices, t)
    requires forall j :: 0 <= j < 3 * t ==> verts[indices[j]] == verts'[indices[j]]
    ensures WellIndexed(verts', indices, t)
    ensures ExtentAfter(verts', indices, t) == ExtentAfter(verts, indices, t)
    ensures forall i :: AccumulatedNormal(verts', indices, t, i) == AccumulatedNormal(verts, indices, t, i)
  {
    if t > 0 {
      UnreferencedVerticesIgnored(verts, verts', indices, t - 1);
      var tri := TriangleAt(indices, t - 1);
      assert Corners(verts', tri) == Corners(verts, tri);
      assert FaceNormal(verts', tri) == FaceNormal(verts, tri);
    }
  }

  /** The single triangle `(0,0,0), (1,0,0), (0,1,0)`. */
  const UnitVerts: seq<Vertex> := [Vector3(0.0, 0.0, 0.0), Vector3(1.0, 0.0, 0.0), Vector3(0.0, 1.0, 0.0)]
  const UnitIndices: seq<nat> := [0, 1, 2]

  /** A triangle whose corners are distinct gives each corner its face vector exactly once. */
  lemma SharesOfCorner(tri: Triangle, i: nat, face: Vector3)
    requires tri.a != tri.b && tri.b != tri.c && tri.a != tri.c
    requires i == tri.a || i == tri.b || i == tri.c
    ensures Shares(tri, i, face) == face
  {
  }

  /** In a mesh of one triangle with distinct corners, each corner's normal is the face vector. */
  lemma SingleTriangleNormals(verts: seq<Vertex>, tri: Triangle, i: nat)
    requires tri.a < |verts| && tri.b < |verts| && tri.c < |verts|
    requires tri.a != tri.b && tri.b != tri.c && tri.a != tri.c
    requires i == tri.a || i == tri.b || i == tri.c
    ensures WellIndexed(verts, [tri.a, tri.b, tri.c], 1)
    ensures AccumulatedNormal(verts, [tri.a, tri.b, tri.c], 1, i) == FaceNormal(verts, tri)
  {
    var indices := [tri.a, tri.b, tri.c];
    assert WellIndexed(verts, indices, 1);
    assert TriangleAt(indices, 0) == tri;
    SharesOfCorner(tri, i, FaceNormal(verts, tri));
  }

  /** Each corner of the unit triangle gets the face normal `(0, 0, 1)`. */
  lemma UnitTriangleNormals(i: nat)
    requires i < 3
    ensures WellIndexed(UnitVerts, UnitIndices, 1)
    ensures AccumulatedNormal(UnitVerts, UnitIndices, 1, i) == Vector3(0.0, 0.0, 1.0)
  {
    SingleTriangleNormals(UnitVerts, Triangle(0, 1, 2), i);
    assert UnitIndices == [0, 1, 2];
    UnitFace();
  }

  lemma UnitFace()
    ensures FaceNormal(UnitVerts, Triangle(0, 1, 2)) == Vector3(0.0, 0.0, 1.0)
  {
  }

  /** The unit triangle's extent is `max (1, 1, 0)`, `min (0, 0, 0)`. */
  lemma UnitTriangleExtent()
    ensures WellIndexed(UnitVerts, UnitIndices, 1)
    ensures ExtentAfter(UnitVerts, UnitIndices, 1) == Extent(Vector3(1.0, 1.0, 0.0), Zero)
  {
    assert WellIndexed(UnitVerts, UnitIndices, 1);
    ExtentStep(UnitVerts, UnitIndices, 1);
    var e1 := Visit(InitialExtent, UnitVerts[0]);
    assert e1 == Extent(Zero, Zero);
    var e2 := Visit(e1, UnitVerts[1]);
    assert e2 == Extent(Vector3(1.0, 0.0, 0.0), Zero);
  }
}
