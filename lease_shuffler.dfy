/** The lease orderer that hands leases out in random order: the list is
    shuffled in place (Collections.shuffle) and the same list is returned. The
    random source is an arbitrary choice of index at each step, so the model
    covers every order the shuffle can produce. */
module LeaseShuffler {
  import opened Shards
  import opened Lists

  /** Shuffles leases in place and returns that same array. */
  method Order(leases: array<Shard>) returns (r: array<Shard>)
    modifies leases
    ensures r == leases
    ensures multiset(leases[..]) == old(multiset(leases[..]))
  {
    Shuffle(leases);
    r := leases;
  }

  /** Collections.shuffle: from the last position down to the second, swap
      the element there with one at a position chosen at random below or at it. */
  method Shuffle(a: array<Shard>)
    modifies a
    ensures multiset(a[..]) == old(multiset(a[..]))
  {
    var i := a.Length;
    while i > 1
      invariant 0 <= i <= a.Length
      invariant multiset(a[..]) == old(multiset(a[..]))
    {
      var j :| 0 <= j < i;
      Swap(a, i - 1, j);
      i := i - 1;
    }
  }

  /** A shuffle reorders without adding or losing leases: same length, and
      every lease before is still there after, and the other way round. */
  lemma ShuffleKeepsLeases(before: seq<Shard>, after: seq<Shard>)
    requires multiset(after) == multiset(before)
    ensures |after| == |before|
    ensures forall x :: x in before <==> x in after
  {
    assert |multiset(after)| == |multiset(before)|;
    forall x ensures x in before <==> x in after {
      assert x in before <==> x in multiset(before);
      assert x in after <==> x in multiset(after);
    }
  }
}
