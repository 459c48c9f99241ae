/** The ownership-consensus point filter of the arbitrary-point interface.

    The geometric search of the finite-element library is abstracted into two oracles:
    the search for a first active cell around a point, which starts from a hint cell,
    and the search for every active cell around a point, which starts from that first
    cell and lists each cell with the subdomain that owns it, whether this process owns
    it, and the point in that cell's reference coordinates. The hint is the first cell
    found for the previous point, so a point's search result depends on the points
    before it. What remains is an order-preserving filter over sequences. */
module Locator {
  import opened Common
  import opened Ranks

  /** A spatial point, or a point in reference-cell coordinates. */
  type Point = seq<real>

  /** An active cell, identified by its level and index in the triangulation. */
  datatype Cell = Cell(level: int, index: int)

  /** One entry of the list of all active cells around a point. */
  datatype Candidate = Candidate(cell: Cell, subdomain: Rank, locallyOwned: bool, refPoint: Point)

  /** The search result for one point: `None` when no first cell was found. */
  type Search = Option<seq<Candidate>>

  /** `find_active_cell_around_point`: the first active cell around a point, searched from
      a hint cell (`None` for an invalid iterator); `None` when no valid cell is found. */
  type FindFirstCell = (Point, Option<Cell>) -> Option<Cell>

  /** `find_all_active_cells_around_point`: every active cell around a point, in the
      library's order, searched from the first cell. */
  type FindAllCells = (Point, Cell) -> seq<Candidate>

  /** An entry of `locally_relevant_points`: the owning cell and the reference point in it. */
  datatype OwnedPoint = OwnedPoint(cell: Cell, refPoint: Point)

  /** The record kept for a candidate cell. */
  function RecordOf(c: Candidate): (r: OwnedPoint) {
    OwnedPoint(c.cell, c.refPoint)
  }

  /** The subdomain ranks among the candidate cells. */
  function RankSet(cands: seq<Candidate>): (ranks: set<Rank>) {
    set c | c in cands :: c.subdomain
  }

  // ---------------------------------------------------------------------------
  // Lowest subdomain rank

  /** The running minimum `lowest_rank = std::min(lowest_rank, subdomain_id)` over `cands`, from `acc`. */
  function LowestRankFrom(acc: Rank, cands: seq<Candidate>): (r: Rank)
    decreases |cands|
  {
    if |cands| == 0 then acc else LowestRankFrom(Min(acc, cands[0].subdomain), cands[1..])
  }

  /** The minimum subdomain rank, started from the `invalid_unsigned_int` sentinel. */
  function LowestRank(cands: seq<Candidate>): (r: Rank) {
    LowestRankFrom(InvalidUnsignedInt, cands)
  }

  /** The running minimum is the least of its start value and the candidates' ranks. */
  lemma {:induction false} LowestRankFromIsLeast(acc: Rank, cands: seq<Candidate>)
    ensures LowestRankFrom(acc, cands) <= acc
    ensures forall s :: s in RankSet(cands) ==> LowestRankFrom(acc, cands) <= s
    ensures LowestRankFrom(acc, cands) == acc || LowestRankFrom(acc, cands) in RankSet(cands)
    decreases |cands|
  {
    if |cands| > 0 {
      var acc' := Min(acc, cands[0].subdomain);
      LowestRankFromIsLeast(acc', cands[1..]);
      assert RankSet(cands) == {cands[0].subdomain} + RankSet(cands[1..]) by {
        assert cands == [cands[0]] + cands[1..];
      }
    }
  }

  /** The lowest rank is the least element of the rank set extended by the sentinel. */
  lemma LowestRankIsLeast(cands: seq<Candidate>)
    ensures LowestRank(cands) in RankSet(cands) + {InvalidUnsignedInt}
    ensures forall s :: s in RankSet(cands) ==> LowestRank(cands) <= s
  {
    LowestRankFromIsLeast(InvalidUnsignedInt, cands);
  }

  /** The lowest rank depends only on the set of candidate ranks, not on their order,
      multiplicity, cells or ownership flags. */
  lemma SameRanksSameLowest(c1: seq<Candidate>, c2: seq<Candidate>)
    requires RankSet(c1) == RankSet(c2)
    ensures LowestRank(c1) == LowestRank(c2)
  {
    LowestRankIsLeast(c1);
    LowestRankIsLeast(c2);
  }

  // ---------------------------------------------------------------------------
  // First locally owned candidate

  /** `k` is the position of the first locally owned candidate. */
  predicate IsFirstLocallyOwned(cands: seq<Candidate>, k: int) {
    && 0 <= k < |cands|
    && cands[k].locallyOwned
    && forall j :: 0 <= j < k ==> !cands[j].locallyOwned
  }

  /** The position at which the scan for a locally owned candidate breaks, if any. */
  function FirstLocallyOwned(cands: seq<Candidate>): (r: Option<nat>)
    ensures r.None? <==> forall j :: 0 <= j < |cands| ==> !cands[j].locallyOwned
    ensures r.Some? ==> IsFirstLocallyOwned(cands, r.value)
    decreases |cands|
  {
    if |cands| == 0 then None
    else if cands[0].locallyOwned then Some(0)
    else match FirstLocallyOwned(cands[1..])
      case None => None
      case Some(k) => Some(k + 1)
  }

  /** There is only one first locally owned position. */
  lemma FirstLocallyOwnedUnique(cands: seq<Candidate>, k: int, l: int)
    requires IsFirstLocallyOwned(cands, k) && IsFirstLocallyOwned(cands, l)
    ensures k == l
  {
  }

  // ---------------------------------------------------------------------------
  // The decision for one point

  /** What the filter keeps for one point: nothing when no first cell was found, nothing
      when the lowest candidate rank is not `myRank`, and otherwise the first locally
      owned candidate, if there is one. */
  function Decide(search: Search, myRank: Rank): (r: Option<OwnedPoint>)
    ensures r.Some? <==>
      && search.Some?
      && myRank in RankSet(search.value)
      && (forall s :: s in RankSet(search.value) ==> myRank <= s)
      && (exists c :: c in search.value && c.locallyOwned)
    ensures r.Some? ==>
      exists k :: IsFirstLocallyOwned(search.value, k) && r.value == RecordOf(search.value[k])
  {
    match search
    case None => None
    case Some(cands) =>
      LowestRankIsLeast(cands);
      if LowestRank(cands) != myRank then None
      else match FirstLocallyOwned(cands)
        case None => None
        case Some(k) =>
          assert cands[k].subdomain in RankSet(cands);
          Some(RecordOf(cands[k]))
  }

  /** A point whose candidate list is empty is never kept, whatever the rank. */
  lemma NoCandidatesDropsPoint(myRank: Rank)
    ensures Decide(Some([]), myRank) == None
  {
  }

  // ---------------------------------------------------------------------------
  // The searches over all points

  /** The hint each point's first-cell search starts from: an invalid iterator for the
      first point, and afterwards the first cell found (or not) for the previous point. */
  function Hints(points: seq<Point>, findFirst: FindFirstCell): (hints: seq<Option<Cell>>)
    ensures |hints| == |points|
    ensures |points| > 0 ==> hints[0] == None
    ensures forall i :: 0 <= i < |points| - 1 ==> hints[i + 1] == findFirst(points[i], hints[i])
    decreases |points|
  {
    if |points| == 0 then []
    else if |points| == 1 then [None]
    else
      var n := |points| - 1;
      var prev := Hints(points[..n], findFirst);
      prev + [findFirst(points[n - 1], prev[n - 1])]
  }

  /** The search for one point from a hint: no result without a first cell, and otherwise
      every cell around the point, searched from that first cell. */
  function SearchFrom(point: Point, hint: Option<Cell>, findFirst: FindFirstCell, findAll: FindAllCells)
    : (search: Search)
  {
    match findFirst(point, hint)
    case None => None
    case Some(first) => Some(findAll(point, first))
  }

  /** The search result for every input position, each from its hint. */
  function Searches(points: seq<Point>, findFirst: FindFirstCell, findAll: FindAllCells)
    : (searches: seq<Search>)
    ensures |searches| == |points|
  {
    var hints := Hints(points, findFirst);
    seq(|points|, i requires 0 <= i < |points| => SearchFrom(points[i], hints[i], findFirst, findAll))
  }

  // ---------------------------------------------------------------------------
  // The filter over all points

  /** The positions below `n` the filter keeps, in increasing order, given each
      position's search result. */
  function KeptBefore(searches: seq<Search>, n: nat, myRank: Rank): (kept: seq<nat>)
    requires n <= |searches|
    ensures forall k :: 0 <= k < |kept| ==> kept[k] < n
    ensures forall k, l :: 0 <= k < l < |kept| ==> kept[k] < kept[l]
    ensures forall i :: 0 <= i < n ==> (i in kept <==> Decide(searches[i], myRank).Some?)
    decreases n
  {
    if n == 0 then []
    else
      var prev := KeptBefore(searches, n - 1, myRank);
      if Decide(searches[n - 1], myRank).Some? then prev + [n - 1] else prev
  }

  /** The input positions the filter keeps, in increasing order. */
  function KeptIndices(searches: seq<Search>, myRank: Rank): (kept: seq<nat>)
    ensures forall k :: 0 <= k < |kept| ==> kept[k] < |searches|
    ensures forall k, l :: 0 <= k < l < |kept| ==> kept[k] < kept[l]
    ensures forall i :: 0 <= i < |searches| ==> (i in kept <==> Decide(searches[i], myRank).Some?)
  {
    KeptBefore(searches, |searches|, myRank)
  }

  /** The records and IDs the filter produces stand in lock-step at the kept positions. */
  ghost predicate PairedWithKept(
    searches: seq<Search>, ids: seq<int>, myRank: Rank,
    kept: seq<nat>, records: seq<OwnedPoint>, keptIds: seq<int>)
    requires forall k :: 0 <= k < |kept| ==> kept[k] < |searches| && kept[k] < |ids|
  {
    && |records| == |kept|
    && |keptIds| == |kept|
    && forall k :: 0 <= k < |kept| ==>
         && Decide(searches[kept[k]], myRank) == Some(records[k])
         && keptIds[k] == ids[kept[k]]
  }

  /** The running minimum over all candidate cells, from the sentinel, as the filter's loop computes it. */
  method ComputeLowestRank(cells: seq<Candidate>) returns (lowestRank: Rank)
    ensures lowestRank in RankSet(cells) + {InvalidUnsignedInt}
    ensures forall s :: s in RankSet(cells) ==> lowestRank <= s
    ensures lowestRank == LowestRank(cells)
  {
    lowestRank := InvalidUnsignedInt;
    for j := 0 to |cells|
      invariant LowestRankFrom(lowestRank, cells[j..]) == LowestRank(cells)
    {
      assert cells[j..][1..] == cells[j + 1..];
      lowestRank := Min(lowestRank, cells[j].subdomain);
    }
    assert cells[|cells|..] == [];
    LowestRankIsLeast(cells);
  }

  /** The scan for the first locally owned candidate, which stops at the first hit. */
  method FindFirstLocallyOwned(cells: seq<Candidate>) returns (j: nat)
    ensures j <= |cells|
    ensures j < |cells| ==> IsFirstLocallyOwned(cells, j)
    ensures j == |cells| ==> forall l :: 0 <= l < |cells| ==> !cells[l].locallyOwned
  {
    j := 0;
    while j < |cells| && !cells[j].locallyOwned
      invariant j <= |cells|
      invariant forall l :: 0 <= l < j ==> !cells[l].locallyOwned
    {
      j := j + 1;
    }
  }

  /** The body of the filter's loop for one point: the search, the rank test and the scan. */
  method DecidePoint(search: Search, myRank: Rank) returns (r: Option<OwnedPoint>)
    ensures r == Decide(search, myRank)
  {
    r := None;
    if search.Some? {
      var cells := search.value;
      var lowestRank := ComputeLowestRank(cells);
      if lowestRank == myRank {
        var j := FindFirstLocallyOwned(cells);
        if j < |cells| {
          FirstLocallyOwnedUnique(cells, j, FirstLocallyOwned(cells).value);
          r := Some(RecordOf(cells[j]));
        }
      }
    }
  }

  /** A kept position extends the paired records and IDs by its record and its ID. */
  lemma PairedKeep(
    searches: seq<Search>, ids: seq<int>, myRank: Rank, i: nat,
    records: seq<OwnedPoint>, keptIds: seq<int>, record: OwnedPoint)
    requires i < |searches| <= |ids|
    requires PairedWithKept(searches, ids, myRank, KeptBefore(searches, i, myRank), records, keptIds)
    requires Decide(searches[i], myRank) == Some(record)
    ensures PairedWithKept(searches, ids, myRank, KeptBefore(searches, i + 1, myRank),
                           records + [record], keptIds + [ids[i]])
  {
    var prev := KeptBefore(searches, i, myRank);
    var kept := KeptBefore(searches, i + 1, myRank);
    assert kept == prev + [i];
    var records', keptIds' := records + [record], keptIds + [ids[i]];
    forall k | 0 <= k < |kept|
      ensures Decide(searches[kept[k]], myRank) == Some(records'[k]) && keptIds'[k] == ids[kept[k]]
    {
      if k < |prev| {
        assert kept[k] == prev[k] && records'[k] == records[k] && keptIds'[k] == keptIds[k];
      }
    }
  }

  /** A dropped position leaves the paired records and IDs as they are. */
  lemma PairedDrop(
    searches: seq<Search>, ids: seq<int>, myRank: Rank, i: nat,
    records: seq<OwnedPoint>, keptIds: seq<int>)
    requires i < |searches| <= |ids|
    requires PairedWithKept(searches, ids, myRank, KeptBefore(searches, i, myRank), records, keptIds)
    requires Decide(searches[i], myRank).None?
    ensures PairedWithKept(searches, ids, myRank, KeptBefore(searches, i + 1, myRank),
                           records, keptIds)
  {
  }

  /** `filter_vertices_to_local_partition`: walks the received points in order, each
      search starting from the previous point's first cell, and, for each point the rank
      test keeps, appends the kept record and the point's ID together. */
  method FilterVerticesToLocalPartition(
    points: seq<Point>, interfaceNodesIds: seq<int>,
    findFirst: FindFirstCell, findAll: FindAllCells, myRank: Rank)
    returns (uniquePoints: seq<OwnedPoint>, relevantIds: seq<int>)
    requires |points| <= |interfaceNodesIds|
    ensures |uniquePoints| == |relevantIds|
    ensures var searches := Searches(points, findFirst, findAll);
      PairedWithKept(searches, interfaceNodesIds, myRank, KeptIndices(searches, myRank),
                     uniquePoints, relevantIds)
  {
    ghost var searches := Searches(points, findFirst, findAll);
    ghost var hints := Hints(points, findFirst);
    uniquePoints := [];
    relevantIds := [];
    var cellHint: Option<Cell> := None;
    for i := 0 to |points|
      invariant i < |points| ==> cellHint == hints[i]
      invariant PairedWithKept(searches, interfaceNodesIds, myRank,
                               KeptBefore(searches, i, myRank), uniquePoints, relevantIds)
    {
      var firstCell := findFirst(points[i], cellHint);
      cellHint := firstCell;
      var search: Search := None;
      if firstCell.Some? {
        search := Some(findAll(points[i], firstCell.value));
      }
      assert search == searches[i];
      var kept := DecidePoint(search, myRank);
      if kept.Some? {
        PairedKeep(searches, interfaceNodesIds, myRank, i, uniquePoints, relevantIds, kept.value);
        uniquePoints := uniquePoints + [kept.value];
        relevantIds := relevantIds + [interfaceNodesIds[i]];
      } else {
        PairedDrop(searches, interfaceNodesIds, myRank, i, uniquePoints, relevantIds);
      }
    }
  }
}
