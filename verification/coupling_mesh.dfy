/** The two mesh phases of the arbitrary-point interface: publishing the bounding box of
    the locally owned cells, and unpacking and filtering the points the coupling partner
    sends back. */
module CouplingMesh {
  import opened Ranks
  import opened Locator
  import opened Adapter

  // ---------------------------------------------------------------------------
  // Bounding box of the locally owned cells

  /** An axis-aligned box, one lower and one upper bound per axis. */
  datatype BoundingBox = BoundingBox(lower: seq<real>, upper: seq<real>)

  /** The box has `dim` axes. */
  predicate HasDimension(box: BoundingBox, dim: nat) {
    |box.lower| == dim && |box.upper| == dim
  }

  /** The bounds of the first `k` axes, interleaved as (lower, upper) per axis. */
  function FlattenAxes(box: BoundingBox, k: nat): (flat: seq<real>)
    requires k <= |box.lower| && k <= |box.upper|
    ensures |flat| == 2 * k
    ensures forall d :: 0 <= d < k ==> flat[2 * d] == box.lower[d] && flat[2 * d + 1] == box.upper[d]
    decreases k
  {
    if k == 0 then [] else FlattenAxes(box, k - 1) + [box.lower[k - 1], box.upper[k - 1]]
  }

  /** The flat `2*dim` array of bounds handed to the coupling library. */
  function FlattenBoundingBox(box: BoundingBox, dim: nat): (flat: seq<real>)
    requires HasDimension(box, dim)
    ensures |flat| == 2 * dim
    ensures forall d :: 0 <= d < dim ==> flat[2 * d] == box.lower[d] && flat[2 * d + 1] == box.upper[d]
  {
    FlattenAxes(box, dim)
  }

  /** Reads a box back from an interleaved array of bounds. */
  function UnflattenBoundingBox(flat: seq<real>): (box: BoundingBox)
    requires |flat| % 2 == 0
    ensures HasDimension(box, |flat| / 2)
  {
    BoundingBox(seq(|flat| / 2, d requires 0 <= d < |flat| / 2 => flat[2 * d]),
                seq(|flat| / 2, d requires 0 <= d < |flat| / 2 => flat[2 * d + 1]))
  }

  /** Flattening loses nothing: the box can be read back from the flat array. */
  lemma BoundingBoxRoundTrip(box: BoundingBox, dim: nat)
    requires HasDimension(box, dim)
    ensures UnflattenBoundingBox(FlattenBoundingBox(box, dim)) == box
  {
    var flat := FlattenBoundingBox(box, dim);
    var back := UnflattenBoundingBox(flat);
    assert back.lower == box.lower;
    assert back.upper == box.upper;
  }

  /** The call that registers the bounding box with the coupling library. */
  datatype SetBoundingBoxes = SetBoundingBoxes(meshId: int, bounds: seq<real>, boxCount: nat)

  /** `define_coupling_mesh`: the one bounding box of the locally owned cells, flattened
      and registered for the interface's mesh. */
  function DefineCouplingMesh(iface: ArbitraryInterface, box: BoundingBox): (call: SetBoundingBoxes)
    requires iface.meshId != -1
    requires HasDimension(box, iface.dim)
    ensures call.meshId == iface.meshId
    ensures call.boxCount == 1
    ensures |call.bounds| == 2 * iface.dim
    ensures UnflattenBoundingBox(call.bounds) == box
  {
    BoundingBoxRoundTrip(box, iface.dim);
    SetBoundingBoxes(iface.meshId, FlattenBoundingBox(box, iface.dim), 1)
  }

  // ---------------------------------------------------------------------------
  // Received coordinates

  /** Row `i` of a flat array of `n` rows of `dim` entries ends within the array. */
  lemma RowInRange(i: nat, n: nat, dim: nat)
    requires i < n
    ensures i * dim + dim <= n * dim
  {
    assert n * dim == (i + 1) * dim + (n - i - 1) * dim;
  }

  /** Row-major flattening of points into one coordinate array, as the coupling
      library stores the received vertices. */
  function FlattenPoints(points: seq<Point>): (flat: seq<real>)
    decreases |points|
  {
    if |points| == 0 then [] else points[0] + FlattenPoints(points[1..])
  }

  /** `point` sits in `coords` from position `start` on: component `d` is `coords[start + d]`,
      and each such position is in range. */
  ghost predicate RowAt(coords: seq<real>, start: nat, point: Point) {
    start + |point| <= |coords| && point == coords[start..start + |point|]
  }

  /** `points` is the unpacking of `coords` into `n` points of `dim` components:
      component `d` of point `i` is `coords[i*dim + d]`. */
  ghost predicate UnpacksTo(coords: seq<real>, n: nat, dim: nat, points: seq<Point>) {
    && |points| == n
    && forall i :: 0 <= i < n ==> |points[i]| == dim && RowAt(coords, i * dim, points[i])
  }

  /** The inner loop of the unpacking: the `dim` components of point `i`, each read at
      `i*dim + d` after checking that this index is in range. */
  method UnpackPoint(receivedCoordinates: seq<real>, receivedMeshSize: nat, dim: nat, i: nat)
    returns (point: Point)
    requires |receivedCoordinates| == receivedMeshSize * dim
    requires i < receivedMeshSize
    ensures |point| == dim
    ensures RowAt(receivedCoordinates, i * dim, point)
  {
    RowInRange(i, receivedMeshSize, dim);
    point := [];
    for d := 0 to dim
      invariant |point| == d
      invariant RowAt(receivedCoordinates, i * dim, point)
    {
      point := point + [receivedCoordinates[i * dim + d]];
    }
  }

  /** The loop of `process_coupling_mesh` that turns the flat coordinate array into
      `n` points of dimension `dim`. */
  method UnpackCoordinates(receivedCoordinates: seq<real>, receivedMeshSize: nat, dim: nat)
    returns (receivedPoints: seq<Point>)
    requires |receivedCoordinates| == receivedMeshSize * dim
    ensures UnpacksTo(receivedCoordinates, receivedMeshSize, dim, receivedPoints)
  {
    receivedPoints := [];
    for i := 0 to receivedMeshSize
      invariant UnpacksTo(receivedCoordinates, i, dim, receivedPoints)
    {
      var point := UnpackPoint(receivedCoordinates, receivedMeshSize, dim, i);
      receivedPoints := receivedPoints + [point];
    }
  }

  /** A row that starts `dim` entries into `coords` starts `dim` entries earlier in
      `coords[dim..]`. */
  lemma RowOfRest(coords: seq<real>, dim: nat, start: nat, point: Point)
    requires dim <= |coords|
    requires RowAt(coords, dim + start, point)
    ensures RowAt(coords[dim..], start, point)
  {
    assert coords[dim..][start..start + |point|] == coords[dim + start..dim + start + |point|];
  }

  /** Unpacking inverts the coupling library's row-major flattening: flattening the
      unpacked points again gives back exactly the received array. */
  lemma {:induction false} UnpackRoundTrip(coords: seq<real>, n: nat, dim: nat, points: seq<Point>)
    requires |coords| == n * dim
    requires UnpacksTo(coords, n, dim, points)
    ensures FlattenPoints(points) == coords
    decreases n
  {
    if n > 0 {
      assert n * dim == dim + (n - 1) * dim;
      var rest := coords[dim..];
      assert |points[0]| == dim && RowAt(coords, 0 * dim, points[0]);
      assert points[0] == coords[..dim];
      forall i | 0 <= i < n - 1
        ensures |points[1..][i]| == dim && RowAt(rest, i * dim, points[1..][i])
      {
        assert |points[i + 1]| == dim && RowAt(coords, (i + 1) * dim, points[i + 1]);
        assert (i + 1) * dim == dim + i * dim;
        RowOfRest(coords, dim, i * dim, points[i + 1]);
      }
      UnpackRoundTrip(rest, n - 1, dim, points[1..]);
      assert coords == coords[..dim] + rest;
    }
  }

  // ---------------------------------------------------------------------------
  // Processing the received mesh

  /** `process_coupling_mesh`: unpacks the `n` received vertices, filters them to the
      ones this process owns, and stores the kept IDs and records in the interface.
      Also returns the unpacked points the filter works on. */
  method ProcessCouplingMesh(
    iface: ArbitraryInterface, receivedIds: seq<int>, receivedCoordinates: seq<real>,
    findFirst: FindFirstCell, findAll: FindAllCells, myRank: Rank)
    returns (r: ArbitraryInterface, receivedPoints: seq<Point>)
    requires iface.meshId != -1
    requires |receivedCoordinates| == |receivedIds| * iface.dim
    requires iface.readDataId == -1 && iface.writeDataId != -1
    ensures UnpacksTo(receivedCoordinates, |receivedIds|, iface.dim, receivedPoints)
    ensures r == iface.(interfaceNodesIds := r.interfaceNodesIds,
                        locallyRelevantPoints := r.locallyRelevantPoints)
    ensures |r.interfaceNodesIds| == |r.locallyRelevantPoints|
    ensures var searches := Searches(receivedPoints, findFirst, findAll);
      PairedWithKept(searches, receivedIds, myRank, KeptIndices(searches, myRank),
                     r.locallyRelevantPoints, r.interfaceNodesIds)
  {
    receivedPoints := UnpackCoordinates(receivedCoordinates, |receivedIds|, iface.dim);
    var uniquePoints, relevantIds :=
      FilterVerticesToLocalPartition(receivedPoints, receivedIds, findFirst, findAll, myRank);
    r := iface.(interfaceNodesIds := relevantIds, locallyRelevantPoints := uniquePoints);
  }
}
