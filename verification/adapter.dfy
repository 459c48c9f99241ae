/** The state of one arbitrary-point coupling interface, as the mesh-processing phase
    leaves it and every write phase reads it. */
module Adapter {
  import opened Locator

  /** The kind of data the interface writes to the coupling partner. Only the two
      "on other mesh" kinds are supported here; all other kinds of the interface family
      are collapsed into `OtherWriteDataType`. */
  datatype WriteDataType = ValuesOnOtherMesh | GradientsOnOtherMesh | OtherWriteDataType

  /** The interface: its coupling identifiers (`-1` when unset), the spatial dimension
      `dim`, the number of field components `dataDim`, and the two vectors the filter
      fills: the kept external IDs and, in the same order, the kept (cell, reference
      point) records. */
  datatype ArbitraryInterface = ArbitraryInterface(
    meshId: int,
    readDataId: int,
    writeDataId: int,
    writeDataType: WriteDataType,
    dim: nat,
    dataDim: nat,
    interfaceNodesIds: seq<int>,
    locallyRelevantPoints: seq<OwnedPoint>)
}
