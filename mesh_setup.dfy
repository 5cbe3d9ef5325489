/**
  The mesh set-up of the renderer's `main` (src/main.rs:137-149, 253-266):
  the flat position list of the loaded model is cut into vertices, the normals
  and the extent are synthesised from them, and the extent gives the fit
  transform — a translation that recentres the box and a uniform scale that
  brings the largest raw extent component to 0.3.
*/
module MeshSetup {
  import opened Geometry

  // ---------------------------------------------------------------------------
  // Positions into vertices

  /**
    `positions.chunks(3).map(|chunk| Vertex { position: (chunk[0], chunk[1],
    chunk[2]) })` (src/main.rs:137-144): a short last chunk panics on `chunk[1]`
    or `chunk[2]`, reported here with its length.
  */
  function ChunkVertices(positions: seq<real>): (r: Result<seq<Vertex>>)
    decreases |positions|
    ensures r.Ok? <==> |positions| % 3 == 0
    ensures r.Err? ==> r.fault == ShortChunk(|positions| % 3)
    ensures r.Ok? ==> |r.value| == |positions| / 3
    ensures r.Ok? ==> forall i :: 0 <= i < |r.value| ==>
      r.value[i] == Vector3(positions[3 * i], positions[3 * i + 1], positions[3 * i + 2])
  {
    if |positions| == 0 then Ok([])
    else if |positions| < 3 then Err(ShortChunk(|positions|))
    else
      match ChunkVertices(positions[3..])
      case Err(f) => Err(f)
      case Ok(rest) => Ok([Vector3(positions[0], positions[1], positions[2])] + rest)
  }

  /** The inverse of chunking: the coordinates of each vertex in order, as the vertex buffer lays them out. */
  function Flatten(verts: seq<Vertex>): (r: seq<real>)
    ensures |r| == 3 * |verts|
    ensures forall i :: 0 <= i < |verts| ==>
      r[3 * i] == verts[i].x && r[3 * i + 1] == verts[i].y && r[3 * i + 2] == verts[i].z
  {
    if verts == [] then []
    else [verts[0].x, verts[0].y, verts[0].z] + Flatten(verts[1..])
  }

  /** Chunking the flattened coordinates gives the vertices back. */
  lemma {:induction false} ChunkFlattenRoundTrip(verts: seq<Vertex>)
    ensures ChunkVertices(Flatten(verts)) == Ok(verts)
  {
    if verts != [] {
      var flat := Flatten(verts);
      assert flat[3..] == Flatten(verts[1..]);
      ChunkFlattenRoundTrip(verts[1..]);
      assert verts == [Vector3(flat[0], flat[1], flat[2])] + verts[1..];
    }
  }

  /** A position list that chunks without a fault is the flattening of its vertices. */
  lemma {:induction false} FlattenChunkRoundTrip(positions: seq<real>)
    requires ChunkVertices(positions).Ok?
    decreases |positions|
    ensures Flatten(ChunkVertices(positions).value) == positions
  {
    if |positions| > 0 {
      var rest := ChunkVertices(positions[3..]).value;
      var verts := [Vector3(positions[0], positions[1], positions[2])] + rest;
      assert ChunkVertices(positions).value == verts;
      assert verts[1..] == rest;
      FlattenChunkRoundTrip(positions[3..]);
      assert positions == positions[..3] + positions[3..];
    }
  }

  // ---------------------------------------------------------------------------
  // The fit transform

  /**
    The translation `-((extent[0] + extent[1]) / 2.0)` (src/main.rs:253-255),
    with `extent == [max, min]`.
  */
  function Translation(e: Extent): (r: Vector3)
    ensures Add(Add(e.max, r), Add(e.min, r)) == Zero
  {
    var half := Div(Add(e.max, e.min), 2.0);
    Vector3(-half.x, -half.y, -half.z)
  }

  /** The six raw extent components `[i, j, k, l, m, n]` of src/main.rs:257-258. */
  function Components(e: Extent): (r: seq<real>)
    ensures |r| == 6
    ensures forall axis :: Coord(e.max, axis) in r && Coord(e.min, axis) in r
  {
    [e.max.x, e.max.y, e.max.z, e.min.x, e.min.y, e.min.z]
  }

  function Abs(v: real): real {
    if v < 0.0 then -v else v
  }

  /**
    The update loop of src/main.rs:259-263: starting from `f32::MIN`, each
    absolute value greater than the running maximum replaces it.
  */
  method LargestMagnitude(e: Extent) returns (largest: real)
    ensures largest >= 0.0
    ensures forall v :: v in Components(e) ==> Abs(v) <= largest
    ensures exists v :: v in Components(e) && largest == Abs(v)
  {
    var vals := Components(e);
    largest := F32_MIN;
    var q := 0;
    while q < |vals|
      invariant 0 <= q <= |vals|
      invariant forall p :: 0 <= p < q ==> Abs(vals[p]) <= largest
      invariant q > 0 ==> exists p :: 0 <= p < q && largest == Abs(vals[p])
      invariant q == 0 ==> largest == F32_MIN
    {
      var val := Abs(vals[q]);
      largest := if val > largest then val else largest;
      q := q + 1;
    }
  }

  /**
    `0.3 / max` (src/main.rs:266) in `f32`: a positive `max` gives a finite
    factor; `0.3 / 0.0` is positive infinity.
  */
  datatype Scale = Finite(factor: real) | Infinite

  const TargetSize: real := 0.3

  function ScaleFor(largest: real): (r: Scale)
    requires largest >= 0.0
    ensures r.Infinite? <==> largest == 0.0
    ensures r.Finite? ==> r.factor > 0.0
  {
    if largest == 0.0 then Infinite else Finite(TargetSize / largest)
  }

  /** A finite scale brings the largest component to exactly `TargetSize`. */
  lemma ScaleReachesTarget(largest: real)
    requires largest > 0.0
    ensures ScaleFor(largest).factor * largest == TargetSize
  {
  }

  /** The translation and the scale the per-frame uniforms are built from. */
  datatype Fit = Fit(translate: Vector3, scale: Scale)

  /** src/main.rs:253-266: the fit transform of an extent. */
  method FitTransform(e: Extent) returns (f: Fit)
    ensures f.translate == Translation(e)
    ensures exists v :: (v in Components(e) && f.scale == ScaleFor(Abs(v)) &&
      forall w :: w in Components(e) ==> Abs(w) <= Abs(v))
  {
    var largest := LargestMagnitude(e);
    f := Fit(Translation(e), ScaleFor(largest));
  }

  /**
    A point inside the box, once recentred and scaled, lies within
    `TargetSize` of the origin on every axis.
  */
  lemma FitKeepsCoveredPointsInView(e: Extent, largest: real, p: Vertex, axis: Axis)
    requires Covers(e, p)
    requires forall v :: v in Components(e) ==> Abs(v) <= largest
    requires largest > 0.0
    ensures Abs(Coord(Add(p, Translation(e)), axis)) * ScaleFor(largest).factor <= TargetSize
  {
    var c := Coord(Add(p, Translation(e)), axis);
    RecentredWithinLargest(e, largest, p, axis);
    var k := ScaleFor(largest).factor;
    ScaleMonotone(Abs(c), largest, k);
    ScaleReachesTarget(largest);
  }

  lemma ScaleMonotone(a: real, b: real, k: real)
    requires 0.0 <= a <= b && k > 0.0
    ensures a * k <= b * k
  {
  }

  /** Recentring moves a covered coordinate to within the largest raw component of the origin. */
  lemma RecentredWithinLargest(e: Extent, largest: real, p: Vertex, axis: Axis)
    requires Covers(e, p)
    requires forall v :: v in Components(e) ==> Abs(v) <= largest
    ensures Abs(Coord(Add(p, Translation(e)), axis)) <= largest
  {
    var hi, lo := Coord(e.max, axis), Coord(e.min, axis);
    assert Abs(hi) <= largest && Abs(lo) <= largest;
    var c := Coord(p, axis) - (hi + lo) / 2.0;
    assert lo <= Coord(p, axis) <= hi;
    assert Coord(Add(p, Translation(e)), axis) == c;
  }

  /** A box symmetric about the origin needs no translation. */
  lemma SymmetricBoxIsCentred(e: Extent)
    requires e.min == Neg(e.max)
    ensures Translation(e) == Zero
  {
  }

  /** The box from `(-2,0,0)` to `(2,0,0)`. */
  const WideBox: Extent := Extent(Vector3(2.0, 0.0, 0.0), Vector3(-2.0, 0.0, 0.0))

  /** `WideBox` is symmetric about the origin, so it gets no translation. */
  lemma WideBoxCentred()
    ensures Translation(WideBox) == Zero
  {
    assert WideBox.min == Neg(WideBox.max);
    SymmetricBoxIsCentred(WideBox);
  }

  /**
    The largest raw component of `WideBox`, as `LargestMagnitude` finds it,
    is 2, so its scale is 0.15.
  */
  lemma SymmetricBoxFit(largest: real)
    requires forall v :: v in Components(WideBox) ==> Abs(v) <= largest
    requires exists v :: v in Components(WideBox) && largest == Abs(v)
    ensures largest == 2.0 && ScaleFor(largest) == Finite(0.15)
  {
    var parts := Components(WideBox);
    assert parts == [2.0, 0.0, 0.0, -2.0, 0.0, 0.0];
    assert Abs(parts[0]) <= largest;
  }

  /**
    With no triangles the extent keeps its sentinels, so the largest component
    is `f32::MAX` and the scale is `0.3 / f32::MAX`.
  */
  lemma EmptyMeshFit(largest: real)
    requires forall v :: v in Components(InitialExtent) ==> Abs(v) <= largest
    requires exists v :: v in Components(InitialExtent) && largest == Abs(v)
    ensures largest == F32_MAX && ScaleFor(largest) == Finite(TargetSize / F32_MAX)
  {
  }

  // ---------------------------------------------------------------------------
  // The whole set-up

  /** What `main` builds before its frame loop. */
  datatype Model = Model(verts: seq<Vertex>, synthesis: Synthesis, fit: Fit)

  /**
    src/main.rs:137-149 and 253-266: chunk the positions, synthesise normals
    and extent, and derive the fit. A short position list or a bad index list
    is the panic the source hits.
  */
  method PrepareModel(positions: seq<real>, indices: seq<nat>, normalize: Vector3 -> Vector3)
    returns (r: Result<Model>)
    ensures ChunkVertices(positions).Err? ==> r == Err(ChunkVertices(positions).fault)
    ensures ChunkVertices(positions).Ok? ==>
      (r.Err? <==> !Mesh(ChunkVertices(positions).value, indices))
    ensures ChunkVertices(positions).Ok? && r.Err? ==>
      FirstFault(|ChunkVertices(positions).value|, indices) == Some(r.fault)
    ensures r.Ok? ==>
      && r.value.verts == ChunkVertices(positions).value
      && Flatten(r.value.verts) == positions
      && |r.value.synthesis.normals| == |r.value.verts|
      && WellIndexed(r.value.verts, indices, |indices| / 3)
      && (forall i :: 0 <= i < |r.value.verts| ==>
            r.value.synthesis.normals[i] == AccumulatedNormal(r.value.verts, indices, |indices| / 3, i))
      && r.value.synthesis.extent == ExtentAfter(r.value.verts, indices, |indices| / 3)
      && r.value.fit.translate == Translation(r.value.synthesis.extent)
    ensures r.Ok? ==> exists v :: (v in Components(r.value.synthesis.extent) &&
      r.value.fit.scale == ScaleFor(Abs(v)) &&
      forall w :: w in Components(r.value.synthesis.extent) ==> Abs(w) <= Abs(v))
    ensures r.Ok? ==> InView(r.value.verts, indices, r.value.fit)
  {
    var chunked := ChunkVertices(positions);
    if chunked.Err? {
      return Err(chunked.fault);
    }
    var verts := chunked.value;
    var synthesis := NormsFromVertsAndIndex(verts, indices, normalize);
    if synthesis.Err? {
      return Err(synthesis.fault);
    }
    var fit := FitTransform(synthesis.value.extent);
    FlattenChunkRoundTrip(positions);
    if fit.scale.Finite? {
      ghost var largest :| largest > 0.0 && fit.scale == ScaleFor(largest) &&
        forall w :: w in Components(synthesis.value.extent) ==> Abs(w) <= largest;
      WholeTriples(|indices|);
      ExtentCoversReferenced(verts, indices, |indices| / 3);
      ReferencedInView(verts, indices, synthesis.value.extent, largest);
      assert fit == Fit(Translation(synthesis.value.extent), ScaleFor(largest));
    }
    r := Ok(Model(verts, synthesis.value, fit));
  }

  lemma WholeTriples(n: nat)
    requires n % 3 == 0
    ensures 3 * (n / 3) == n
  {
  }

  /**
    Under a finite fit, every vertex a triangle references lands within
    `TargetSize` of the origin on every axis once recentred and scaled.
  */
  predicate InView(verts: seq<Vertex>, indices: seq<nat>, fit: Fit) {
    fit.scale.Finite? ==>
      forall j, axis :: 0 <= j < |indices| && indices[j] < |verts| ==>
        Abs(Coord(Add(verts[indices[j]], fit.translate), axis)) * fit.scale.factor <= TargetSize
  }

  /** The fit of a box that covers every referenced vertex keeps them all in view. */
  lemma ReferencedInView(verts: seq<Vertex>, indices: seq<nat>, e: Extent, largest: real)
    requires forall j :: 0 <= j < |indices| ==> indices[j] < |verts| && Covers(e, verts[indices[j]])
    requires largest > 0.0
    requires forall w :: w in Components(e) ==> Abs(w) <= largest
    ensures InView(verts, indices, Fit(Translation(e), ScaleFor(largest)))
  {
    forall j, axis | 0 <= j < |indices| && indices[j] < |verts|
      ensures Abs(Coord(Add(verts[indices[j]], Translation(e)), axis)) * ScaleFor(largest).factor <= TargetSize
    {
      FitKeepsCoveredPointsInView(e, largest, verts[indices[j]], axis);
    }
  }


}
