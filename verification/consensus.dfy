/** The cross-process consequence of the lowest-rank rule: when every process that finds a
    point sees the same set of candidate subdomain ranks, at most one process keeps the
    point, and it is the one with the lowest rank. */
module Consensus {
  import opened Ranks
  import opened Locator

  /** Every process that found the point (`views[p]` is the search result on rank `p`)
      sees exactly the candidate ranks `ranks`. */
  predicate SharedRanks(views: seq<Search>, ranks: set<Rank>) {
    forall p :: 0 <= p < |views| && views[p].Some? ==> RankSet(views[p].value) == ranks
  }

  /** On rank `p`, the locally-owned flag of a candidate says that `p` owns its subdomain. */
  predicate OwnershipConsistent(search: Search, p: Rank) {
    search.Some? ==> forall c :: c in search.value ==> (c.locallyOwned <==> c.subdomain == p)
  }

  /** A process that keeps the point has the least rank among the candidates. */
  lemma KeeperHasLowestRank(views: seq<Search>, ranks: set<Rank>, p: Rank)
    requires SharedRanks(views, ranks)
    requires p < |views| && Decide(views[p], p).Some?
    ensures p in ranks
    ensures forall s :: s in ranks ==> p <= s
  {
  }

  /** Single ownership: two processes that both keep the point are the same process. */
  lemma AtMostOneKeeper(views: seq<Search>, ranks: set<Rank>, p: Rank, q: Rank)
    requires SharedRanks(views, ranks)
    requires p < |views| && Decide(views[p], p).Some?
    requires q < |views| && Decide(views[q], q).Some?
    ensures p == q
  {
    KeeperHasLowestRank(views, ranks, p);
    KeeperHasLowestRank(views, ranks, q);
  }

  /** No silent drop on the owner: if the lowest-ranked candidate process found the point
      and its ownership flags agree with the subdomain ranks, it keeps the point, and
      every other process drops it. */
  lemma LowestRankKeepsAlone(views: seq<Search>, ranks: set<Rank>, m: Rank)
    requires SharedRanks(views, ranks)
    requires m in ranks && forall s :: s in ranks ==> m <= s
    requires m < |views| && views[m].Some? && OwnershipConsistent(views[m], m)
    ensures Decide(views[m], m).Some?
    ensures forall q: Rank :: q < |views| && q != m ==> Decide(views[q], q).None?
  {
    var cands := views[m].value;
    var c :| c in cands && c.subdomain == m;
    assert c.locallyOwned;
    forall q: Rank | q < |views| && q != m
      ensures Decide(views[q], q).None?
    {
      if Decide(views[q], q).Some? {
        AtMostOneKeeper(views, ranks, m, q);
      }
    }
  }

  /** A point on a boundary shared by subdomains 2, 5 and 7 is kept by rank 2 or by no one. */
  lemma SharedBoundaryGoesToLowestRank(views: seq<Search>, p: Rank)
    requires SharedRanks(views, {2, 5, 7})
    requires p < |views| && Decide(views[p], p).Some?
    ensures p == 2
  {
    KeeperHasLowestRank(views, {2, 5, 7}, p);
  }
}
