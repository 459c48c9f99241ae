# Arbitrary-point coupling interface: a Dafny model

This project models the core of the deal.II/preCICE adapter's *arbitrary interface*
(`Adapter::ArbitraryInterface`). The coupling partner sends this interface a cloud of
points. The interface does three things:

- It publishes the bounding box of the locally owned cells (`define_coupling_mesh`).
- It unpacks the received points and keeps only the points this process owns
  (`process_coupling_mesh`, `filter_vertices_to_local_partition`). An ownership
  consensus decides: the lowest subdomain rank among all cells around a point wins.
- On every exchange it evaluates a field value or gradient at each kept point and
  writes it back under the point's external ID (`write_data`, `write_data_factory`).

The geometric search is abstracted into two oracles:
- `findFirst: (Point, Option<Cell>) -> Option<Cell>` finds a first active cell around a
  point, starting from a hint cell.
- `findAll: (Point, Cell) -> seq<Candidate>` lists every active cell around the point,
  starting from that first cell. Each cell comes with its subdomain rank, its
  locally-owned flag and the point in that cell's reference coordinates.

As in the source, the hint for a point is the first cell found for the previous point.
So a point's search result, including the order of its candidates, may depend on the
points before it. With the oracles given, the filter becomes a pure, order-preserving
function over sequences.

Modules, each in its own file:

- `Common` (`common.dfy`): `Option`, `Result` and the `NotImplemented` failure.
- `Ranks` (`ranks.dfy`): ranks as 32-bit `unsigned int`, `invalid_unsigned_int`, and `std::min`.
- `Locator` (`locator.dfy`): the consensus filter. It has a functional reference model
  (`Decide`, `KeptIndices`) and a loop-based method that mirrors the source and is
  proved equal to it.
- `Consensus` (`consensus.dfy`): the cross-process guarantees of the lowest-rank rule.
- `Adapter` (`adapter.dfy`): the interface state. It holds the coupling identifiers
  (`-1` when unset), `dim`, `data_dim`, and the two stored vectors.
- `CouplingMesh` (`coupling_mesh.dfy`): bounding-box flattening, coordinate unpacking,
  and mesh processing.
- `Writer` (`writer.dfy`): the per-point write dispatch. It produces a list of write events.

Preconditions:

- Checks that abort the run on a setup bug are `requires` clauses. These are
  `mesh_id != -1`, `write_data_id != -1`, `read_data_id == -1`, and the index-range
  check of the write loop.
- `ExcNotImplemented` is a modelled outcome, `Err(NotImplemented)`.

## Model

| member | source | states |
|---|---|---|
| Ranks.Min | include/adapter/arbitrary_interface.h:334 | `std::min` of two ranks is at most both arguments and is one of them |
| Locator.LowestRankFromIsLeast | include/adapter/arbitrary_interface.h:331-334 | about `LowestRankFrom`, the `std::min` fold: the running minimum over the candidates is at most its start value and every candidate rank, and is either the start value or one of the candidate ranks |
| Locator.LowestRankIsLeast | include/adapter/arbitrary_interface.h:331-334 | about `LowestRank`, the fold from `invalid_unsigned_int`: the lowest rank, started from `invalid_unsigned_int`, is the least element of the candidate rank set extended by that sentinel |
| Locator.SameRanksSameLowest | include/adapter/arbitrary_interface.h:331-334 | two candidate lists with the same rank set have the same lowest rank, whatever their order, cells or ownership flags |
| Locator.FirstLocallyOwned | include/adapter/arbitrary_interface.h:339-345 | the scan finds nothing exactly when no candidate is locally owned; otherwise it finds a locally owned candidate with none owned before it |
| Locator.Decide | include/adapter/arbitrary_interface.h:314-345 | a point is kept iff a first cell was found, `my_rank` is a candidate rank not above any other, and some candidate is locally owned; the kept record is the first locally owned candidate's cell and reference point |
| Locator.NoCandidatesDropsPoint | include/adapter/arbitrary_interface.h:331-345 | an empty candidate list never yields a record, for any rank, including `invalid_unsigned_int` |
| Locator.Hints | include/adapter/arbitrary_interface.h:305-318 | the first point's search starts from an invalid hint; every later point's search starts from the first cell found, or not found, for the previous point |
| Locator.KeptBefore | include/adapter/arbitrary_interface.h:312-346 | the positions below `n` that the loop keeps are below `n` and strictly increasing, and a position below `n` is among them iff its point is kept |
| Locator.KeptIndices | include/adapter/arbitrary_interface.h:312-346 | the kept input positions are in range and strictly increasing, and a position is among them iff its point is kept |
| Locator.ComputeLowestRank | include/adapter/arbitrary_interface.h:331-334 | the rank loop returns the least candidate rank, or the sentinel when there are no candidates |
| Locator.FindFirstLocallyOwned | include/adapter/arbitrary_interface.h:339-345 | the scan with `break` stops at the first locally owned candidate, or runs off the end when there is none |
| Locator.DecidePoint | include/adapter/arbitrary_interface.h:320-345 | the loop body for one point computes exactly the reference decision |
| Locator.FilterVerticesToLocalPartition | include/adapter/arbitrary_interface.h:291-351 | the output records and IDs have equal length; the k-th record and the k-th ID both come from the k-th kept input position, in input order; each position's decision uses `Searches`: its search result is `SearchFrom` its hint, which is no result when the first-cell search from the hint finds no valid cell (the `continue` at 320-321), and otherwise every cell around the point, searched from that first cell (315-329) |
| Consensus.KeeperHasLowestRank | include/adapter/arbitrary_interface.h:87-94 | when all finders see the same rank set, a process that keeps the point has the lowest rank in that set |
| Consensus.AtMostOneKeeper | include/adapter/arbitrary_interface.h:87-94 | when all finders see the same rank set, two processes that both keep a point are the same process |
| Consensus.LowestRankKeepsAlone | include/adapter/arbitrary_interface.h:331-345 | if the lowest-ranked candidate process finds the point and its owned flags match the subdomain ranks, it keeps the point and every other process drops it |
| Consensus.SharedBoundaryGoesToLowestRank | include/adapter/arbitrary_interface.h:331-337 | a point whose candidate ranks are {2, 5, 7} can be kept only by rank 2 |
| CouplingMesh.FlattenAxes | include/adapter/arbitrary_interface.h:138-143 | after `k` axes the array has `2k` entries, with the lower bound of axis `d` at `2d` and the upper bound at `2d+1` |
| CouplingMesh.FlattenBoundingBox | include/adapter/arbitrary_interface.h:137-144 | the flattened box has exactly `2*dim` entries, with entry `2d` the lower and entry `2d+1` the upper bound of axis `d` |
| CouplingMesh.BoundingBoxRoundTrip | include/adapter/arbitrary_interface.h:137-144 | reading the flat array back as (lower, upper) pairs gives the original box |
| CouplingMesh.DefineCouplingMesh | include/adapter/arbitrary_interface.h:122-148 | with a set mesh id, one box of `2*dim` bounds is registered for that mesh, and the box can be recovered from the bounds |
| CouplingMesh.RowInRange | include/adapter/arbitrary_interface.h:264 | for `i < n`, every index `i*dim + d` with `d < dim` is below `n*dim` |
| CouplingMesh.UnpackPoint | include/adapter/arbitrary_interface.h:262-266 | point `i` has `dim` components, and component `d` is the in-range entry `i*dim + d` |
| CouplingMesh.UnpackCoordinates | include/adapter/arbitrary_interface.h:259-266 | the received array unpacks into `n` points of `dim` components, with component `d` of point `i` equal to `coords[i*dim + d]` |
| CouplingMesh.UnpackRoundTrip | include/adapter/arbitrary_interface.h:251-266 | flattening the unpacked points row by row gives back exactly the received coordinate array |
| CouplingMesh.ProcessCouplingMesh | include/adapter/arbitrary_interface.h:239-278 | processing unpacks the received points and stores equal-length ID and record vectors paired at the kept positions; the rest of the interface state is unchanged |
| Writer.WriteDataFactory | include/adapter/arbitrary_interface.h:198-235 | every stored position is handled in order: on success there is one write per stored ID, in order, each the callback's result for that position; on failure, the error is the first failing position's |
| Writer.ValueWriter | include/adapter/arbitrary_interface.h:163-175 | the value callback never fails; its write goes to the write channel under the given ID, and is a vector write exactly when `data_dim > 1` |
| Writer.GradientWriter | include/adapter/arbitrary_interface.h:181-189 | the gradient callback succeeds exactly when `data_dim == 1`, fails only as not implemented, and on success makes a vector write to the write channel under the given ID |
| Writer.WriteData | include/adapter/arbitrary_interface.h:152-194 | values always succeed: a vector write when `data_dim > 1`, a scalar write otherwise. Gradients succeed only for `data_dim == 1` or no stored points, as vector writes. Other kinds fail as not implemented. Each write goes to the write channel, tagged with the stored ID at its position |
| Writer.WritesFollowKeptPoints | include/adapter/arbitrary_interface.h:218-233 | after processing, the k-th write carries the ID of the k-th kept input point, and its payload is the field's components (`data_dim > 1`), value (`data_dim <= 1`) or gradient, evaluated at the record the filter chose for that point |

## Left out

- The geometric search is not modelled: `GridTools::Cache`, `find_active_cell_around_point`,
  `find_all_active_cells_around_point`, the mapping to reference coordinates and the
  tolerance. It is library code, and the `findFirst` and `findAll` oracles replace it.
  The oracles are arbitrary functions of their arguments (the point, and the hint or the
  first cell). Nothing is assumed about how the hint affects the result.
- `FEPointEvaluation`, `get_dof_values` and the `DoFCellAccessor` conversion are not
  modelled. They are floating-point library interpolation. The value, component vector
  and gradient at a record are opaque function values of a `PointEvaluator`. Arity
  (`data_dim` or `dim` components) is the library's concern.
- The preCICE calls are not modelled as calls. `getMeshVertexSize` and
  `getMeshVerticesWithIDs` become the input sequences of `ProcessCouplingMesh`.
  `setBoundingBoxes`, `writeScalarData` and `writeVectorData` become returned call and
  event values.
- `compute_mesh_predicate_bounding_box` is left out because it is a library computation.
  The model starts from its one box.
- The MPI rank lookup is left out. `my_rank` is a parameter, and no concurrency is modelled.
- `print_info`, `get_interface_type`, the constructor and the `CouplingInterface` base
  class plumbing are left out because they do not affect the exchanged data.
  `coupling_interface.h` is not part of this model. Its write-data kinds other than the
  two "on other mesh" kinds are collapsed into `OtherWriteDataType`.
- Coordinates and field values are `real`, not `double`, because no arithmetic is done on them.
- `received_mesh_size` is a natural number. A negative count from the coupling library
  would make the source's vector allocation fail, and that path is not modelled.
  The products `received_mesh_size * dim` (line 251) and `i * dim + d` (line 264) are
  `int` in the source. Overflow past `INT_MAX` is not modelled: the model's arithmetic is
  unbounded.
- The debug/release distinction of deal.II's `Assert` is not modelled. The model follows
  a debug build, in which every `Assert` is checked.
- Writer.WriteData: like the source, it fails a gradient request on a field with
  `data_dim != 1` only when there is at least one stored point. The `Assert` at line 182
  sits inside the per-point lambda, so with no stored points nothing is written and
  nothing fails.
- Consensus.LowestRankKeepsAlone: completeness across processes is stated per point, with
  every process's search result given. That every locatable point is found by its
  lowest-ranked owner is a property of the geometric search and is not modelled.
