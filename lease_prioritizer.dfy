/** The lease orderer that hands leases out parents first: each call builds a
    fresh parents-first prioritization bounded only by Integer.MAX_VALUE and
    applies it to the leases. */
module LeasePrioritizer {
  import opened Shards
  import opened Depths
  import opened ParentsFirst

  /** Orders the leases parents first. Fails exactly when the active leases
      form a parent cycle; otherwise no active lease is dropped, because no
      depth can exceed the number of leases. */
  method Order(leases: seq<Shard>) returns (r: Result<seq<Shard>>, ghost depths: map<string, nat>)
    ensures r.Ok? <==> !HasCycle(Lookup(leases))
    ensures r.Err? ==> r.error.CircularDependency? && OnCycle(Lookup(leases), r.error.shardId)
    ensures r.Ok? ==> IsPrioritization(Lookup(leases), depths, IntMax as int, r.value)
    ensures r.Ok? && |leases| <= IntMax as int ==> Ids(r.value) == ActiveIds(Lookup(leases))
  {
    // Integer.MAX_VALUE is a valid bound, so construction cannot fail
    var created := ParentsFirstShardPrioritization.Create(IntMax);
    r, depths := created.value.Prioritize(leases);
    if r.Ok? && |leases| <= IntMax as int {
      KeepsAllActive(Lookup(leases), depths, IntMax as int, r.value);
    }
  }

  /** A bound no smaller than the batch keeps every active shard. */
  lemma KeepsAllActive(shards: map<string, Shard>, d: map<string, nat>, maxDepth: int, out: seq<Shard>)
    requires IsPrioritization(shards, d, maxDepth, out) && |shards| <= maxDepth
    ensures Ids(out) == ActiveIds(shards)
  {
    forall k | k in d ensures d[k] <= maxDepth {
      DepthBounded(shards, d, k);
    }
  }
}
