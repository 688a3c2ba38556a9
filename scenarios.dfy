/** The batches the prioritization is exercised on, proved for every shuffle
    of the batch rather than for one random seed: a chain of shards, each
    naming the one before it among its parents (and otherwise only earlier
    shards or ids outside the batch), comes out in chain order, cut after
    maxDepth shards; a chain whose first shard names a later one as parent
    has a cycle, so prioritizing it fails. */
module Scenarios {
  import opened Shards
  import opened Depths
  import opened ParentsFirst

  /** Distinct active shards, each listing the previous one among its parents
      and no later shard of the chain. */
  ghost predicate IsChain(chain: seq<Shard>) {
    && DistinctIds(chain)
    && (forall k :: 0 <= k < |chain| ==> !chain[k].completed)
    && (forall k :: 0 < k < |chain| ==> chain[k - 1].id in chain[k].parents)
    && (forall k, p :: 0 <= k < |chain| && p in chain[k].parents && p in Ids(chain) ==>
          exists j :: 0 <= j < k && chain[j].id == p)
  }

  /** Position k of the chain has depth k + 1. */
  function ChainDepths(chain: seq<Shard>): (d: map<string, nat>)
    requires DistinctIds(chain)
    ensures d.Keys == Ids(chain)
    ensures forall k :: 0 <= k < |chain| ==> d[chain[k].id] == k + 1
  {
    map k | 0 <= k < |chain| :: chain[k].id := k + 1
  }

  /** shards maps the ids of the chain, and only those, to their shards. */
  ghost predicate HoldsChain(shards: map<string, Shard>, chain: seq<Shard>) {
    && shards.Keys == Ids(chain)
    && forall k :: 0 <= k < |chain| ==> shards[chain[k].id] == chain[k]
  }

  /** Shuffling a batch of distinct ids does not change its lookup: each id
      maps to the one shard that carries it. */
  lemma ShuffledLookup(chain: seq<Shard>, original: seq<Shard>)
    requires DistinctIds(chain) && multiset(original) == multiset(chain)
    ensures HoldsChain(Lookup(original), chain)
  {
    forall x | x in Ids(original) ensures x in Ids(chain) {
      var i :| 0 <= i < |original| && original[i].id == x;
      assert original[i] in multiset(chain);
      var m :| 0 <= m < |chain| && chain[m] == original[i];
    }
    forall x | x in Ids(chain) ensures x in Ids(original) {
      var m :| 0 <= m < |chain| && chain[m].id == x;
      assert chain[m] in multiset(original);
      var i :| 0 <= i < |original| && original[i] == chain[m];
    }
    forall k | 0 <= k < |chain| ensures Lookup(original)[chain[k].id] == chain[k] {
      assert chain[k].id in Ids(chain);
      var j := LookupKeepsLast(original, chain[k].id);
      assert original[j] in multiset(chain);
      var m :| 0 <= m < |chain| && chain[m] == original[j];
    }
  }

  /** The deepest parent of the shard at position k sits at position k - 1. */
  lemma ChainStep(chain: seq<Shard>, k: int)
    requires IsChain(chain) && 0 <= k < |chain|
    ensures MaxOf(ChainDepths(chain), chain[k].parents) == k
  {
    var d, ps := ChainDepths(chain), chain[k].parents;
    forall p | p in ps ensures DepthOf(d, p) <= k {
      if p in d {
        assert p in Ids(chain);
        var j :| 0 <= j < k && chain[j].id == p;
        assert d[p] == j + 1;
      }
    }
    if k > 0 {
      assert chain[k - 1].id in ps;
      assert DepthOf(d, chain[k - 1].id) == k;
    }
  }

  /** The depth of a shuffled chain is its position plus one. */
  lemma ChainDepthMap(chain: seq<Shard>, original: seq<Shard>)
    requires IsChain(chain) && multiset(original) == multiset(chain)
    ensures IsDepthMap(Lookup(original), ChainDepths(chain))
  {
    ShuffledLookup(chain, original);
    forall k | 0 <= k < |chain| ensures MaxOf(ChainDepths(chain), chain[k].parents) == k {
      ChainStep(chain, k);
    }
    ChainDepthsSolve(chain, Lookup(original));
  }

  lemma ChainDepthsSolve(chain: seq<Shard>, shards: map<string, Shard>)
    requires DistinctIds(chain) && HoldsChain(shards, chain)
    requires forall k :: 0 <= k < |chain| ==> !chain[k].completed
    requires forall k :: 0 <= k < |chain| ==> MaxOf(ChainDepths(chain), chain[k].parents) == k
    ensures IsDepthMap(shards, ChainDepths(chain))
  {
    var d := ChainDepths(chain);
    assert d.Keys == ActiveIds(shards) by {
      forall x | x in shards ensures !shards[x].completed {
        var k :| 0 <= k < |chain| && chain[k].id == x;
      }
    }
    assert forall x :: x in d ==> x in shards && d[x] == 1 + MaxOf(d, shards[x].parents) by {
      forall x | x in d ensures x in shards && d[x] == 1 + MaxOf(d, shards[x].parents) {
        var k :| 0 <= k < |chain| && chain[k].id == x;
      }
    }
  }

  /** A chain of distinct ids holds no cycle. */
  lemma ChainHasNoCycle(chain: seq<Shard>, original: seq<Shard>)
    requires IsChain(chain) && multiset(original) == multiset(chain)
    ensures !HasCycle(Lookup(original))
  {
    ChainDepthMap(chain, original);
    DepthMapExcludesCycle(Lookup(original), ChainDepths(chain));
  }

  /** A strictly increasing sequence of L values between 1 and L counts 1, 2, ..., L. */
  lemma Consecutive(s: seq<int>)
    requires forall i, j :: 0 <= i < j < |s| ==> s[i] < s[j]
    requires forall i :: 0 <= i < |s| ==> 1 <= s[i] <= |s|
    ensures forall i :: 0 <= i < |s| ==> s[i] == i + 1
  {
    forall i | 0 <= i < |s| ensures s[i] == i + 1 {
      AtLeast(s, i);
      AtMost(s, i);
    }
  }

  lemma {:induction false} AtLeast(s: seq<int>, i: nat)
    requires forall i, j :: 0 <= i < j < |s| ==> s[i] < s[j]
    requires forall i :: 0 <= i < |s| ==> 1 <= s[i]
    requires i < |s|
    ensures s[i] >= i + 1
  {
    if i > 0 {
      AtLeast(s, i - 1);
    }
  }

  lemma {:induction false} AtMost(s: seq<int>, i: nat)
    requires forall i, j :: 0 <= i < j < |s| ==> s[i] < s[j]
    requires forall i :: 0 <= i < |s| ==> s[i] <= |s|
    requires i < |s|
    ensures s[i] <= i + 1
    decreases |s| - i
  {
    if i < |s| - 1 {
      AtMost(s, i + 1);
    }
  }

  /** The number of shards kept from a chain of n under the bound maxDepth. */
  function Kept(n: nat, maxDepth: int): (L: nat)
    ensures L <= n
  {
    if maxDepth < 0 then 0 else if maxDepth < n then maxDepth else n
  }

  /** However a chain is shuffled, the prioritization returns its first
      maxDepth shards (all of them when the chain is shorter) in chain order. */
  lemma ChainPrioritized(chain: seq<Shard>, original: seq<Shard>, d: map<string, nat>, maxDepth: int, out: seq<Shard>)
    requires IsChain(chain) && multiset(original) == multiset(chain)
    requires IsPrioritization(Lookup(original), d, maxDepth, out)
    ensures |out| == Kept(|chain|, maxDepth)
    ensures forall i :: 0 <= i < |out| ==> out[i] == chain[i]
  {
    var L := Kept(|chain|, maxDepth);
    ChainDepthMap(chain, original);
    DepthMapUnique(Lookup(original), d, ChainDepths(chain));
    ShuffledLookup(chain, original);
    assert forall i :: 0 <= i < |out| ==> out[i] == Lookup(original)[out[i].id];
    ChainResultIds(chain, d, maxDepth, out);
    ChainResultOrder(chain, out, L);
  }

  /** Under the chain's depths the kept ids are those of its first shards. */
  lemma ChainResultIds(chain: seq<Shard>, d: map<string, nat>, maxDepth: int, out: seq<Shard>)
    requires DistinctIds(chain) && d.Keys == Ids(chain)
    requires forall k :: 0 <= k < |chain| ==> d[chain[k].id] == k + 1
    requires DistinctIds(out) && Ids(out) == set k | k in d && d[k] <= maxDepth
    ensures Ids(out) == Ids(chain[..Kept(|chain|, maxDepth)])
    ensures |out| == Kept(|chain|, maxDepth)
  {
    var head := chain[..Kept(|chain|, maxDepth)];
    assert Ids(out) <= Ids(head) by {
      forall x | x in Ids(out) ensures x in Ids(head) {
        var k :| 0 <= k < |chain| && chain[k].id == x;
        assert head[k].id == x;
      }
    }
    assert Ids(head) <= Ids(out) by {
      forall x | x in Ids(head) ensures x in Ids(out) {
        var k :| 0 <= k < |head| && head[k].id == x;
        assert chain[k].id == x;
      }
    }
    assert DistinctIds(head);
    DistinctIdsCount(out);
    DistinctIdsCount(head);
  }

  /** L shards with the ids of the first L of the chain, in depth order, are
      those ids in chain order. */
  lemma ChainResultOrder(chain: seq<Shard>, out: seq<Shard>, L: nat)
    requires DistinctIds(chain) && L <= |chain| && |out| == L
    requires Ids(out) == Ids(chain[..L]) && DistinctIds(out)
    requires InDepthOrder(ChainDepths(chain), out)
    ensures forall i :: 0 <= i < |out| ==> out[i].id == chain[i].id
  {
    var d := ChainDepths(chain);
    var head := chain[..L];
    // the position in the chain of each returned id
    var pos := seq(L, i requires 0 <= i < L => PositionIn(head, out[i].id));
    forall i, j | 0 <= i < j < L ensures pos[i] < pos[j] {
      assert DepthOf(d, out[i].id) <= DepthOf(d, out[j].id);
      assert chain[pos[i]] == head[pos[i]] && chain[pos[j]] == head[pos[j]];
    }
    var depths := seq(L, i requires 0 <= i < L => pos[i] + 1);
    Consecutive(depths);
    forall i | 0 <= i < L ensures out[i].id == chain[i].id {
      assert depths[i] == pos[i] + 1 == i + 1;
    }
  }

  /** The position of id in a list holding it. */
  ghost function PositionIn(s: seq<Shard>, id: string): (k: nat)
    requires id in Ids(s)
    ensures k < |s| && s[k].id == id
  {
    var k :| 0 <= k < |s| && s[k].id == id; k
  }

  /** A chain whose first shard also names the shard at position m as a parent
      is circular: m, m - 1, ..., 0, m. */
  lemma ClosedChainHasCycle(chain: seq<Shard>, original: seq<Shard>, m: nat)
    requires DistinctIds(chain) && multiset(original) == multiset(chain)
    requires forall k :: 0 <= k < |chain| ==> !chain[k].completed
    requires forall k :: 0 < k < |chain| ==> chain[k - 1].id in chain[k].parents
    requires m < |chain| && chain[m].id in chain[0].parents
    ensures HasCycle(Lookup(original))
  {
    ShuffledLookup(chain, original);
    var c := ClosedChainCycle(chain, Lookup(original), m);
  }

  lemma ClosedChainCycle(chain: seq<Shard>, shards: map<string, Shard>, m: nat) returns (c: seq<string>)
    requires HoldsChain(shards, chain)
    requires forall k :: 0 <= k < |chain| ==> !chain[k].completed
    requires forall k :: 0 < k < |chain| ==> chain[k - 1].id in chain[k].parents
    requires m < |chain| && chain[m].id in chain[0].parents
    ensures IsCycle(shards, c)
  {
    c := seq(m + 2, j requires 0 <= j < m + 2 => if j <= m then chain[m - j].id else chain[m].id);
    forall j | 0 <= j < |c| - 1 ensures Active(shards, c[j]) && c[j + 1] in shards[c[j]].parents {
      assert c[j] == chain[m - j].id && shards[c[j]] == chain[m - j];
    }
  }
}
