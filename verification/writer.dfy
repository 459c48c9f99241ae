/** The write phase of the arbitrary-point interface: for every kept record, in stored
    order, the field is evaluated at the record's reference point in its cell and the
    result is written to the coupling library under the record's external ID.

    Field evaluation is library interpolation and is given as opaque function values;
    the coupling library's write calls become a list of write events. */
module Writer {
  import opened Common
  import opened Ranks
  import opened Locator
  import opened Adapter

  /** The global (distributed) field vector, one value per degree of freedom. */
  type DofVector = seq<real>

  /** One call into the coupling library's write interface. */
  datatype WriteEvent =
    | WriteScalarData(dataId: int, vertexId: int, value: real)
    | WriteVectorData(dataId: int, vertexId: int, values: seq<real>)
  {
    /** The external ID the event is tagged with. */
    function VertexId(): (id: int) {
      match this
      case WriteScalarData(_, id, _) => id
      case WriteVectorData(_, id, _) => id
    }

    /** The write channel the event goes to. */
    function DataId(): (id: int) {
      match this
      case WriteScalarData(id, _, _) => id
      case WriteVectorData(id, _, _) => id
    }
  }

  /** Evaluation of the field at a kept record: its value when the field has one
      component, its components when it has several, and its gradient. */
  datatype PointEvaluator = PointEvaluator(
    scalarValue: (DofVector, OwnedPoint) -> real,
    vectorValue: (DofVector, OwnedPoint) -> seq<real>,
    gradient: (DofVector, OwnedPoint) -> seq<real>)

  /** The per-point callback: evaluates one record and makes the write for its ID. */
  type WriteValue = (OwnedPoint, int) -> Result<WriteEvent>

  /** `write_data_factory`: calls `writeValue` for position `i` of the stored IDs and
      records, for every `i` in order, and stops at the first failure. */
  function WriteDataFactory(ids: seq<int>, points: seq<OwnedPoint>, writeValue: WriteValue)
    : (r: Result<seq<WriteEvent>>)
    requires |ids| <= |points|
    ensures r.Ok? <==> forall i :: 0 <= i < |ids| ==> writeValue(points[i], ids[i]).Ok?
    ensures r.Ok? ==>
      && |r.value| == |ids|
      && forall i :: 0 <= i < |ids| ==> Ok(r.value[i]) == writeValue(points[i], ids[i])
    ensures r.Err? ==>
      exists i :: && 0 <= i < |ids|
                  && writeValue(points[i], ids[i]) == Err(r.error)
                  && forall j :: 0 <= j < i ==> writeValue(points[j], ids[j]).Ok?
    decreases |ids|
  {
    if |ids| == 0 then Ok([])
    else
      var n := |ids| - 1;
      match WriteDataFactory(ids[..n], points, writeValue)
      case Err(e) => Err(e)
      case Ok(events) =>
        match writeValue(points[n], ids[n])
        case Err(e) => Err(e)
        case Ok(event) => Ok(events + [event])
  }

  /** The callback for point values: a vector write when the field has more than one
      component, a scalar write otherwise. It never fails. */
  function ValueWriter(iface: ArbitraryInterface, field: DofVector, eval: PointEvaluator): (w: WriteValue)
    ensures forall point, id :: w(point, id).Ok?
    ensures forall point, id ::
      && w(point, id).value.DataId() == iface.writeDataId
      && w(point, id).value.VertexId() == id
      && (w(point, id).value.WriteVectorData? <==> iface.dataDim > 1)
  {
    (point: OwnedPoint, id: int) =>
      if iface.dataDim > 1 then Ok(WriteVectorData(iface.writeDataId, id, eval.vectorValue(field, point)))
      else Ok(WriteScalarData(iface.writeDataId, id, eval.scalarValue(field, point)))
  }

  /** The callback for point gradients: only a one-component field has a gradient to
      write, as a vector; any other field fails as not implemented. */
  function GradientWriter(iface: ArbitraryInterface, field: DofVector, eval: PointEvaluator): (w: WriteValue)
    ensures forall point, id :: w(point, id).Ok? <==> iface.dataDim == 1
    ensures forall point, id :: w(point, id).Err? ==> w(point, id).error == NotImplemented
    ensures forall point, id :: w(point, id).Ok? ==>
      && w(point, id).value.WriteVectorData?
      && w(point, id).value.DataId() == iface.writeDataId
      && w(point, id).value.VertexId() == id
  {
    (point: OwnedPoint, id: int) =>
      if iface.dataDim != 1 then Err(NotImplemented)
      else Ok(WriteVectorData(iface.writeDataId, id, eval.gradient(field, point)))
  }

  /** `write_data`: dispatches on the kind of data the interface writes. Values and
      gradients issue one write per stored record, in stored order, each tagged with
      the stored ID at the same position; any other kind is not implemented. */
  function WriteData(iface: ArbitraryInterface, field: DofVector, eval: PointEvaluator)
    : (r: Result<seq<WriteEvent>>)
    requires iface.writeDataType != OtherWriteDataType ==>
      && iface.writeDataId != -1
      && |iface.interfaceNodesIds| <= |iface.locallyRelevantPoints|
    ensures r.Err? ==> r.error == NotImplemented
    ensures r.Ok? <==>
      || iface.writeDataType == ValuesOnOtherMesh
      || (iface.writeDataType == GradientsOnOtherMesh &&
          (iface.dataDim == 1 || |iface.interfaceNodesIds| == 0))
    ensures r.Ok? ==>
      && |r.value| == |iface.interfaceNodesIds|
      && forall i :: 0 <= i < |r.value| ==>
           r.value[i].DataId() == iface.writeDataId && r.value[i].VertexId() == iface.interfaceNodesIds[i]
    ensures r.Ok? && iface.writeDataType == ValuesOnOtherMesh && iface.dataDim > 1 ==>
      forall i :: 0 <= i < |r.value| ==>
        r.value[i] == WriteVectorData(iface.writeDataId, iface.interfaceNodesIds[i],
                                      eval.vectorValue(field, iface.locallyRelevantPoints[i]))
    ensures r.Ok? && iface.writeDataType == ValuesOnOtherMesh && iface.dataDim <= 1 ==>
      forall i :: 0 <= i < |r.value| ==>
        r.value[i] == WriteScalarData(iface.writeDataId, iface.interfaceNodesIds[i],
                                      eval.scalarValue(field, iface.locallyRelevantPoints[i]))
    ensures r.Ok? && iface.writeDataType == GradientsOnOtherMesh ==>
      forall i :: 0 <= i < |r.value| ==>
        r.value[i] == WriteVectorData(iface.writeDataId, iface.interfaceNodesIds[i],
                                      eval.gradient(field, iface.locallyRelevantPoints[i]))
  {
    var ids := iface.interfaceNodesIds;
    var points := iface.locallyRelevantPoints;
    match iface.writeDataType
    case ValuesOnOtherMesh => WriteDataFactory(ids, points, ValueWriter(iface, field, eval))
    case GradientsOnOtherMesh => WriteDataFactory(ids, points, GradientWriter(iface, field, eval))
    case OtherWriteDataType => Err(NotImplemented)
  }

  /** The write phase after mesh processing (`searches` are the received points' search
      results): the `k`-th write carries the external ID of the `k`-th kept input point
      and the field evaluated at the record the filter chose for that same point. */
  lemma WritesFollowKeptPoints(
    iface: ArbitraryInterface, searches: seq<Search>, receivedIds: seq<int>,
    myRank: Rank, field: DofVector, eval: PointEvaluator)
    requires |searches| <= |receivedIds|
    requires iface.writeDataType != OtherWriteDataType ==> iface.writeDataId != -1
    requires PairedWithKept(searches, receivedIds, myRank, KeptIndices(searches, myRank),
                            iface.locallyRelevantPoints, iface.interfaceNodesIds)
    ensures var r := WriteData(iface, field, eval);
      var kept := KeptIndices(searches, myRank);
      r.Ok? ==>
        && |r.value| == |kept|
        && forall k :: 0 <= k < |kept| ==>
             var id := receivedIds[kept[k]];
             var record := Decide(searches[kept[k]], myRank).value;
             && (iface.writeDataType == ValuesOnOtherMesh && iface.dataDim > 1 ==>
                   r.value[k] == WriteVectorData(iface.writeDataId, id, eval.vectorValue(field, record)))
             && (iface.writeDataType == ValuesOnOtherMesh && iface.dataDim <= 1 ==>
                   r.value[k] == WriteScalarData(iface.writeDataId, id, eval.scalarValue(field, record)))
             && (iface.writeDataType == GradientsOnOtherMesh ==>
                   r.value[k] == WriteVectorData(iface.writeDataId, id, eval.gradient(field, record)))
  {
  }
}
