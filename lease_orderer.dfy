/** The lease-ordering port: a lease orderer takes the list of leases a worker
    may take and returns the list in the order to take them. The two
    implementations are the cases of a datatype, and ordering dispatches on
    the case. */
module LeaseOrderers {
  import opened Shards
  import opened ParentsFirst
  import opened Lists
  import LeasePrioritizer
  import LeaseShuffler

  datatype LeaseOrderer = Prioritizer | Shuffler

  /** LeaseOrderer.order. The shuffler reorders the given list in place and
      returns it; the prioritizer leaves it alone and returns a new list, the
      parents-first prioritization of the leases under Integer.MAX_VALUE, or
      fails on a parent cycle. */
  method Order(orderer: LeaseOrderer, leases: array<Shard>) returns (r: Result<array<Shard>>, ghost depths: map<string, nat>)
    modifies leases
    ensures orderer.Shuffler? ==> r == Ok(leases) && multiset(leases[..]) == old(multiset(leases[..]))
    ensures orderer.Prioritizer? ==> leases[..] == old(leases[..])
    ensures orderer.Prioritizer? ==> (r.Ok? <==> !HasCycle(Lookup(leases[..])))
    ensures orderer.Prioritizer? && r.Ok? ==>
      fresh(r.value) && IsPrioritization(Lookup(leases[..]), depths, IntMax as int, r.value[..])
  {
    depths := map[];
    match orderer
    case Shuffler =>
      var same := LeaseShuffler.Order(leases);
      r := Ok(same);
    case Prioritizer =>
      var ordered;
      ordered, depths := LeasePrioritizer.Order(leases[..]);
      if ordered.Err? {
        return Err(ordered.error), depths;
      }
      var a := ToArray(ordered.value);
      r := Ok(a);
  }
}
