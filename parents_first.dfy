/** The parents-first shard prioritization: resolve every shard's dependency
    depth with a memo and an in-progress marker, sort the resolved shards by
    depth, and drop those deeper than a positive bound. */
module ParentsFirst {
  import opened Shards
  import opened Depths
  import opened Lists

  /** A resolved shard with its depth. */
  datatype SortingNode = SortingNode(shard: Shard, depth: nat)

  /** An entry of the memo: the in-progress marker or a resolved node. */
  datatype Slot = Processing | Resolved(node: SortingNode)

  /** Integer.compare on the depths of two nodes: the sign orders them by depth. */
  function CompareTo(a: SortingNode, b: SortingNode): (c: int)
    ensures c < 0 <==> a.depth < b.depth
    ensures c > 0 <==> a.depth > b.depth
  {
    if a.depth < b.depth then -1 else if a.depth == b.depth then 0 else 1
  }

  /** CompareTo is a total preorder: antisymmetric in sign and transitive. */
  lemma CompareToIsPreorder(a: SortingNode, b: SortingNode, c: SortingNode)
    ensures CompareTo(a, b) == -CompareTo(b, a)
    ensures CompareTo(a, b) <= 0 && CompareTo(b, c) <= 0 ==> CompareTo(a, c) <= 0
  {
  }

  predicate SortedByDepth(nodes: seq<SortingNode>) {
    forall m, n :: 0 <= m < n < |nodes| ==> nodes[m].depth <= nodes[n].depth
  }

  function NodeIds(nodes: seq<SortingNode>): set<string> {
    set m | 0 <= m < |nodes| :: nodes[m].shard.id
  }

  // ---------------------------------------------------------------------------
  // What a call of prioritize returns

  /** out is a parents-first prioritization of the batch whose lookup is shards,
      under the depth map d and the bound maxDepth: each active shard whose depth
      is at most maxDepth, once, as the batch holds it, in non-decreasing depth. */
  ghost predicate IsPrioritization(shards: map<string, Shard>, d: map<string, nat>, maxDepth: int, out: seq<Shard>) {
    && IsDepthMap(shards, d)
    && (forall i :: 0 <= i < |out| ==> out[i].id in shards && out[i] == shards[out[i].id])
    && DistinctIds(out)
    && InDepthOrder(d, out)
    && Ids(out) == set k | k in d && d[k] <= maxDepth
  }

  /** Shards listed in non-decreasing depth under d. */
  predicate InDepthOrder(d: map<string, nat>, out: seq<Shard>) {
    forall i, j :: 0 <= i < j < |out| ==> DepthOf(d, out[i].id) <= DepthOf(d, out[j].id)
  }

  /** Completed shards and ids foreign to the batch never come out, and every
      returned shard has a depth between 1 and maxDepth. */
  lemma CompletedNeverReturned(shards: map<string, Shard>, d: map<string, nat>, maxDepth: int, out: seq<Shard>)
    requires IsPrioritization(shards, d, maxDepth, out)
    ensures forall i :: 0 <= i < |out| ==> !out[i].completed && Active(shards, out[i].id)
    ensures forall i :: 0 <= i < |out| ==> out[i].id in d && 1 <= d[out[i].id] <= maxDepth
  {
    forall i | 0 <= i < |out|
      ensures !out[i].completed && Active(shards, out[i].id)
      ensures out[i].id in d && 1 <= d[out[i].id] <= maxDepth
    {
      assert out[i].id in Ids(out);
      assert out[i].id in ActiveIds(shards);
    }
  }

  /** Parents come first: every active parent of a returned shard is returned
      too, strictly earlier. */
  lemma ParentsComeFirst(shards: map<string, Shard>, d: map<string, nat>, maxDepth: int, out: seq<Shard>, i: int, p: string)
    requires IsPrioritization(shards, d, maxDepth, out)
    requires 0 <= i < |out| && p in out[i].parents && Active(shards, p)
    ensures exists j :: 0 <= j < i && out[j].id == p
  {
    CompletedNeverReturned(shards, d, maxDepth, out);
    var k := out[i].id;
    ParentShallower(shards, d, k, p);
    assert p in Ids(out);
    var j :| 0 <= j < |out| && out[j].id == p;
    ShallowerIsEarlier(d, out, i, j);
  }

  lemma ShallowerIsEarlier(d: map<string, nat>, out: seq<Shard>, i: int, j: int)
    requires InDepthOrder(d, out)
    requires 0 <= i < |out| && 0 <= j < |out| && DepthOf(d, out[j].id) < DepthOf(d, out[i].id)
    ensures j < i
  {
  }

  /** Ids are distinct, so the result is no longer than the batch. */
  lemma ResultNoLongerThanBatch(original: seq<Shard>, d: map<string, nat>, maxDepth: int, out: seq<Shard>)
    requires IsPrioritization(Lookup(original), d, maxDepth, out)
    ensures |out| <= |original|
  {
    DistinctIdsCount(out);
    CompletedNeverReturned(Lookup(original), d, maxDepth, out);
    assert Ids(out) <= Lookup(original).Keys;
    SubsetCard(Ids(out), Lookup(original).Keys);
  }

  /** Every returned shard is the last shard of the batch carrying its id. */
  lemma ResultFromBatch(original: seq<Shard>, d: map<string, nat>, maxDepth: int, out: seq<Shard>, i: int)
    returns (j: nat)
    requires IsPrioritization(Lookup(original), d, maxDepth, out) && 0 <= i < |out|
    ensures j < |original| && original[j] == out[i] && LastWithId(original, j)
  {
    j := LookupKeepsLast(original, out[i].id);
  }

  lemma {:induction false} DistinctIdsCount(s: seq<Shard>)
    requires DistinctIds(s)
    ensures |Ids(s)| == |s|
  {
    if s != [] {
      var init := s[..|s| - 1];
      DistinctIdsCount(init);
      IdsSnoc(s);
      assert s[|s| - 1].id !in Ids(init);
    }
  }

  /** Two prioritizations of one batch under one bound agree on the depths and on
      which shards they return; only the order among equal depths may differ. */
  lemma PrioritizationDeterminedUpToTies(shards: map<string, Shard>, d1: map<string, nat>, d2: map<string, nat>, maxDepth: int, out1: seq<Shard>, out2: seq<Shard>)
    requires IsPrioritization(shards, d1, maxDepth, out1)
    requires IsPrioritization(shards, d2, maxDepth, out2)
    ensures d1 == d2 && Ids(out1) == Ids(out2) && |out1| == |out2|
  {
    DepthMapUnique(shards, d1, d2);
    DistinctIdsCount(out1);
    DistinctIdsCount(out2);
  }

  // ---------------------------------------------------------------------------
  // The memo of populateDepth

  ghost function ResolvedDepths(memo: map<string, Slot>): map<string, nat> {
    map k | k in memo && memo[k].Resolved? :: memo[k].node.depth
  }

  /** An active id is resolved in the memo. */
  ghost predicate Settled(shards: map<string, Shard>, memo: map<string, Slot>, id: string) {
    Active(shards, id) ==> id in memo && memo[id].Resolved?
  }

  /** The resolved entry for k holds shard k at 1 + its largest parent depth, and
      every active parent of k is resolved. */
  ghost predicate Resolves(shards: map<string, Shard>, memo: map<string, Slot>, k: string)
    requires k in memo && k in shards && memo[k].Resolved?
  {
    && memo[k].node == SortingNode(shards[k], 1 + MaxOf(ResolvedDepths(memo), shards[k].parents))
    && forall p :: p in shards[k].parents ==> Settled(shards, memo, p)
  }

  /** The memo while populateDepth runs: path is the chain of ids in progress,
      each a parent of the one before; they and only they are marked Processing. */
  ghost predicate MemoInv(shards: map<string, Shard>, memo: map<string, Slot>, path: seq<string>) {
    && KeysActive(shards, memo)
    && MarksPath(memo, path)
    && PathLinks(shards, path)
    && ResolvedCorrect(shards, memo)
  }

  ghost predicate KeysActive(shards: map<string, Shard>, memo: map<string, Slot>) {
    forall k :: k in memo ==> Active(shards, k)
  }

  /** Exactly the ids of the chain are marked in progress. */
  ghost predicate MarksPath(memo: map<string, Slot>, path: seq<string>) {
    && (forall k :: k in memo ==> (memo[k].Processing? <==> k in path))
    && (forall k :: k in path ==> k in memo)
  }

  /** Each id of the chain is a parent of the one before it. */
  ghost predicate PathLinks(shards: map<string, Shard>, path: seq<string>) {
    forall i :: 0 <= i < |path| - 1 ==> path[i] in shards && path[i + 1] in shards[path[i]].parents
  }

  ghost predicate IsResolved(memo: map<string, Slot>, k: string) {
    k in memo && memo[k].Resolved?
  }

  /** Every resolved entry is correct. The trigger keeps the parents' entries,
      which Resolves mentions, from instantiating this quantifier in turn. */
  ghost predicate ResolvedCorrect(shards: map<string, Shard>, memo: map<string, Slot>) {
    forall k {:trigger IsResolved(memo, k)} :: IsResolved(memo, k) ==> k in shards && Resolves(shards, memo, k)
  }

  /** m2 grows m1 without touching its resolved entries. */
  ghost predicate Extends(m1: map<string, Slot>, m2: map<string, Slot>) {
    && m1.Keys <= m2.Keys
    && forall k :: k in m1 && m1[k].Resolved? ==> m2[k] == m1[k]
  }

  /** Growing the memo keeps every settled id settled: after populating
      original[i], the ids of original[..i + 1] are all settled. */
  lemma SettledStays(shards: map<string, Shard>, m1: map<string, Slot>, m2: map<string, Slot>, original: seq<Shard>, i: nat)
    requires i < |original|
    requires Extends(m1, m2)
    requires forall j :: 0 <= j < i ==> Settled(shards, m1, original[j].id)
    requires Settled(shards, m2, original[i].id)
    ensures forall j :: 0 <= j < i + 1 ==> Settled(shards, m2, original[j].id)
  {
  }

  /** Growing the memo keeps the depth it gives every settled id. */
  lemma AgreeOnSettled(shards: map<string, Shard>, m1: map<string, Slot>, m2: map<string, Slot>, ps: seq<string>)
    requires forall k :: k in m2 ==> Active(shards, k)
    requires Extends(m1, m2)
    requires forall p :: p in ps ==> Settled(shards, m1, p)
    ensures MaxOf(ResolvedDepths(m1), ps) == MaxOf(ResolvedDepths(m2), ps)
    ensures forall p :: p in ps ==> Settled(shards, m2, p)
  {
    forall p | p in ps ensures DepthOf(ResolvedDepths(m1), p) == DepthOf(ResolvedDepths(m2), p) {
      if Active(shards, p) {
        assert m2[p] == m1[p];
      } else {
        assert p !in m1 && p !in m2;
      }
    }
    MaxOfAgree(ResolvedDepths(m1), ResolvedDepths(m2), ps);
  }

  /** Growing the memo keeps every resolved entry correct. */
  lemma StableResolved(shards: map<string, Shard>, m1: map<string, Slot>, m2: map<string, Slot>)
    requires forall k :: k in m2 ==> Active(shards, k)
    requires Extends(m1, m2)
    requires ResolvedCorrect(shards, m1)
    ensures forall k :: k in m1 && m1[k].Resolved? ==> k in shards && Resolves(shards, m2, k)
  {
    forall k | k in m1 && m1[k].Resolved? ensures k in shards && Resolves(shards, m2, k) {
      assert IsResolved(m1, k);
      AgreeOnSettled(shards, m1, m2, shards[k].parents);
    }
  }

  /** Populating every id of the batch settles every active shard of it. */
  lemma AllSettled(original: seq<Shard>, memo: map<string, Slot>)
    requires forall j :: 0 <= j < |original| ==> Settled(Lookup(original), memo, original[j].id)
    ensures forall k :: Active(Lookup(original), k) ==> k in memo
  {
    forall k | Active(Lookup(original), k) ensures k in memo {
      assert k in Ids(original);
      var j :| 0 <= j < |original| && original[j].id == k;
      assert Settled(Lookup(original), memo, original[j].id);
    }
  }

  /** The nodes copied out of a finished memo are its depth map's nodes. */
  lemma CollectedAreGood(shards: map<string, Shard>, memo: map<string, Slot>, nodes: seq<SortingNode>)
    requires MemoInv(shards, memo, [])
    requires forall m :: 0 <= m < |nodes| ==> nodes[m].shard.id in memo && memo[nodes[m].shard.id] == Resolved(nodes[m])
    requires forall m, n :: 0 <= m < n < |nodes| ==> nodes[m].shard.id != nodes[n].shard.id
    requires NodeIds(nodes) == memo.Keys
    requires forall k :: k in memo ==> memo[k].Resolved?
    ensures GoodNodes(shards, ResolvedDepths(memo), nodes)
    ensures NodeIds(nodes) == ResolvedDepths(memo).Keys
  {
    forall m | 0 <= m < |nodes| ensures nodes[m].shard.id in shards && nodes[m].shard == shards[nodes[m].shard.id] {
      assert IsResolved(memo, nodes[m].shard.id);
    }
  }

  /** Once every active id is resolved and none is in progress, the memo's
      depths are the batch's depth map. */
  lemma MemoIsDepthMap(shards: map<string, Shard>, memo: map<string, Slot>)
    requires MemoInv(shards, memo, [])
    requires forall k :: Active(shards, k) ==> k in memo
    requires forall k :: k in shards ==> shards[k].id == k
    ensures forall k :: k in memo ==> memo[k].Resolved? && memo[k].node.shard.id == k
    ensures IsDepthMap(shards, ResolvedDepths(memo))
  {
    forall k | k in memo ensures memo[k].Resolved? && memo[k].node.shard.id == k {
      assert IsResolved(memo, k);
    }
    var d := ResolvedDepths(memo);
    assert d.Keys == ActiveIds(shards) by {
      forall k | k in ActiveIds(shards) ensures k in d {
        assert Active(shards, k);
      }
    }
    forall k | k in d ensures k in shards && d[k] == 1 + MaxOf(d, shards[k].parents) {
      assert IsResolved(memo, k);
    }
  }

  /** The resolved nodes of a finished memo, as a list. */
  ghost predicate GoodNodes(shards: map<string, Shard>, d: map<string, nat>, nodes: seq<SortingNode>) {
    && (forall m :: 0 <= m < |nodes| ==>
          var k := nodes[m].shard.id;
          k in d && k in shards && nodes[m].depth == d[k] && nodes[m].shard == shards[k])
    && (forall m, n :: 0 <= m < n < |nodes| ==> nodes[m].shard.id != nodes[n].shard.id)
  }

  lemma {:induction false} DistinctCount(a: seq<SortingNode>, x: SortingNode)
    requires forall m, n :: 0 <= m < n < |a| ==> a[m].shard.id != a[n].shard.id
    ensures multiset(a)[x] <= 1
  {
    if a != [] {
      var init := a[..|a| - 1];
      assert a == init + [a[|a| - 1]];
      DistinctCount(init, x);
      if a[|a| - 1] == x {
        assert x !in init;
      }
    }
  }

  /** Reordering the resolved nodes keeps them resolved nodes, ids included. */
  lemma PermutationKeepsGood(shards: map<string, Shard>, d: map<string, nat>, a: seq<SortingNode>, b: seq<SortingNode>)
    requires multiset(a) == multiset(b)
    requires GoodNodes(shards, d, a)
    ensures GoodNodes(shards, d, b) && NodeIds(b) == NodeIds(a)
  {
    forall m | 0 <= m < |b| ensures b[m] in a {
      assert b[m] in multiset(b);
    }
    forall m, n | 0 <= m < n < |b| ensures b[m].shard.id != b[n].shard.id {
      if b[m].shard.id == b[n].shard.id {
        assert b[m].shard == shards[b[m].shard.id] == b[n].shard;
        assert b[m] == b[n];
        assert b == b[..n] + b[n..];
        assert b[m] in b[..n] && b[m] in b[n..];
        assert multiset(b)[b[m]] >= 2;
        DistinctCount(a, b[m]);
      }
    }
    forall k | k in NodeIds(a) ensures k in NodeIds(b) {
      var m :| 0 <= m < |a| && a[m].shard.id == k;
      assert a[m] in multiset(a);
      var n :| 0 <= n < |b| && b[n] == a[m];
    }
  }

  /** The shards of the nodes no deeper than maxDepth, in node order. */
  function Filter(nodes: seq<SortingNode>, maxDepth: int): seq<Shard> {
    if nodes == [] then []
    else
      var last := nodes[|nodes| - 1];
      Filter(nodes[..|nodes| - 1], maxDepth) + (if last.depth <= maxDepth then [last.shard] else [])
  }

  function FilterIdsSpec(nodes: seq<SortingNode>, maxDepth: int): set<string> {
    set m | 0 <= m < |nodes| && nodes[m].depth <= maxDepth :: nodes[m].shard.id
  }

  /** The ids kept are those of the nodes no deeper than maxDepth. */
  lemma {:induction false} FilterIds(nodes: seq<SortingNode>, maxDepth: int)
    ensures Ids(Filter(nodes, maxDepth)) == FilterIdsSpec(nodes, maxDepth)
  {
    if nodes != [] {
      var init, last := nodes[..|nodes| - 1], nodes[|nodes| - 1];
      FilterIds(init, maxDepth);
      var out, prev := Filter(nodes, maxDepth), Filter(init, maxDepth);
      var extra := if last.depth <= maxDepth then {last.shard.id} else {};
      assert FilterIdsSpec(nodes, maxDepth) == FilterIdsSpec(init, maxDepth) + extra by {
        forall k | k in FilterIdsSpec(nodes, maxDepth) ensures k in FilterIdsSpec(init, maxDepth) + extra {
          var m :| 0 <= m < |nodes| && nodes[m].depth <= maxDepth && nodes[m].shard.id == k;
          if m < |nodes| - 1 { assert init[m] == nodes[m]; }
        }
        forall k | k in FilterIdsSpec(init, maxDepth) ensures k in FilterIdsSpec(nodes, maxDepth) {
          var m :| 0 <= m < |init| && init[m].depth <= maxDepth && init[m].shard.id == k;
          assert nodes[m] == init[m];
        }
      }
      if last.depth <= maxDepth {
        IdsSnoc(out);
        assert out[..|out| - 1] == prev;
      } else {
        assert out == prev;
      }
    }
  }

  /** Every kept shard is the shard of a node no deeper than maxDepth; m is its position. */
  lemma {:induction false} FilterFrom(nodes: seq<SortingNode>, maxDepth: int, i: int) returns (m: nat)
    requires 0 <= i < |Filter(nodes, maxDepth)|
    ensures m < |nodes| && nodes[m].shard == Filter(nodes, maxDepth)[i] && nodes[m].depth <= maxDepth
  {
    var init, last := nodes[..|nodes| - 1], nodes[|nodes| - 1];
    var prev := Filter(init, maxDepth);
    if i < |prev| {
      m := FilterFrom(init, maxDepth, i);
    } else {
      m := |nodes| - 1;
    }
  }

  /** Kept shards carry distinct ids when the nodes do. */
  lemma {:induction false} FilterDistinct(shards: map<string, Shard>, d: map<string, nat>, nodes: seq<SortingNode>, maxDepth: int)
    requires GoodNodes(shards, d, nodes)
    ensures DistinctIds(Filter(nodes, maxDepth))
  {
    if nodes != [] {
      var init, last := nodes[..|nodes| - 1], nodes[|nodes| - 1];
      FilterDistinct(shards, d, init, maxDepth);
      var out, prev := Filter(nodes, maxDepth), Filter(init, maxDepth);
      if last.depth <= maxDepth {
        FilterIds(init, maxDepth);
        forall i | 0 <= i < |prev| ensures prev[i].id != last.shard.id {
          assert prev[i].id in Ids(prev);
        }
        assert out == prev + [last.shard];
      } else {
        assert out == prev;
      }
    }
  }

  /** Kept shards are in non-decreasing depth when the nodes are. */
  lemma {:induction false} FilterSorted(shards: map<string, Shard>, d: map<string, nat>, nodes: seq<SortingNode>, maxDepth: int)
    requires GoodNodes(shards, d, nodes) && SortedByDepth(nodes)
    ensures InDepthOrder(d, Filter(nodes, maxDepth))
  {
    if nodes != [] {
      var init, last := nodes[..|nodes| - 1], nodes[|nodes| - 1];
      FilterSorted(shards, d, init, maxDepth);
      var out, prev := Filter(nodes, maxDepth), Filter(init, maxDepth);
      if last.depth <= maxDepth {
        assert out == prev + [last.shard];
        forall i, j | 0 <= i < j < |out| ensures DepthOf(d, out[i].id) <= DepthOf(d, out[j].id) {
          assert out[i] == prev[i];
          if j < |prev| {
            assert out[j] == prev[j];
          } else {
            var m := FilterFrom(init, maxDepth, i);
            assert nodes[m] == init[m] && out[j] == last.shard;
            assert DepthOf(d, prev[i].id) == nodes[m].depth <= last.depth == DepthOf(d, last.shard.id);
          }
        }
      } else {
        assert out == prev;
      }
    }
  }

  /** Filtering the sorted resolved nodes of a finished memo yields a prioritization. */
  lemma FilterSound(shards: map<string, Shard>, d: map<string, nat>, nodes: seq<SortingNode>, maxDepth: int)
    requires IsDepthMap(shards, d)
    requires GoodNodes(shards, d, nodes) && SortedByDepth(nodes) && NodeIds(nodes) == d.Keys
    ensures IsPrioritization(shards, d, maxDepth, Filter(nodes, maxDepth))
  {
    var out := Filter(nodes, maxDepth);
    assert forall i :: 0 <= i < |out| ==> out[i].id in shards && out[i] == shards[out[i].id] by {
      forall i | 0 <= i < |out| ensures out[i].id in shards && out[i] == shards[out[i].id] {
        var m := FilterFrom(nodes, maxDepth, i);
      }
    }
    FilterDistinct(shards, d, nodes, maxDepth);
    FilterSorted(shards, d, nodes, maxDepth);
    assert Ids(out) == set k | k in d && d[k] <= maxDepth by {
      FilterIds(nodes, maxDepth);
      forall k | k in d && d[k] <= maxDepth ensures k in FilterIdsSpec(nodes, maxDepth) {
        assert k in NodeIds(nodes);
        var m :| 0 <= m < |nodes| && nodes[m].shard.id == k;
      }
    }
  }

  // ---------------------------------------------------------------------------
  // The algorithm

  class ParentsFirstShardPrioritization {
    /** Shards deeper than this are not returned. */
    const maxDepth: int32

    /** Stores the bound once it has been checked positive; Create performs the check. */
    constructor (maxDepth: int32)
      requires maxDepth > 0
      ensures this.maxDepth == maxDepth
    {
      this.maxDepth := maxDepth;
    }

    /** The public constructor: a non-positive bound is rejected, since depth 0
        means completed or absent and such shards cannot be processed. */
    static method Create(maxDepth: int32) returns (r: Result<ParentsFirstShardPrioritization>)
      ensures r.Ok? <==> maxDepth > 0
      ensures r.Ok? ==> r.value.maxDepth == maxDepth
      ensures r.Err? ==> r.error == InvalidMaxDepth(maxDepth)
    {
      if maxDepth <= 0 {
        return Err(InvalidMaxDepth(maxDepth));
      }
      var p := new ParentsFirstShardPrioritization(maxDepth);
      return Ok(p);
    }

    /** Orders the batch parents first and drops shards deeper than maxDepth.
        Fails, with no partial result, exactly when the active shards contain a
        parent cycle; the id it names lies on one. */
    method Prioritize(original: seq<Shard>) returns (r: Result<seq<Shard>>, ghost depths: map<string, nat>)
      ensures r.Ok? <==> !HasCycle(Lookup(original))
      ensures r.Err? ==> r.error.CircularDependency? && OnCycle(Lookup(original), r.error.shardId)
      ensures r.Ok? ==> IsPrioritization(Lookup(original), depths, maxDepth as int, r.value)
    {
      var shards := BuildLookup(original);
      var populated, cycle := PopulateAll(original, shards);
      if populated.Err? {
        return Err(populated.error), map[];
      }
      var processed := populated.value;
      AllSettled(original, processed);
      MemoIsDepthMap(shards, processed);
      depths := ResolvedDepths(processed);

      var nodes := CollectNodes(processed);
      CollectedAreGood(shards, processed, nodes);
      var a := new SortingNode[|nodes|](m requires 0 <= m < |nodes| => nodes[m]);
      assert a[..] == nodes;
      SortNodes(a);
      var orderedNodes := a[..];
      PermutationKeepsGood(shards, depths, nodes, orderedNodes);

      var orderedInfos := FilterByDepth(orderedNodes, maxDepth as int);
      FilterSound(shards, depths, orderedNodes, maxDepth as int);
      DepthMapExcludesCycle(shards, depths);
      r := Ok(orderedInfos);
    }

    /** The id -> shard map of the batch, built by putting each shard in order. */
    static method BuildLookup(original: seq<Shard>) returns (shards: map<string, Shard>)
      ensures shards == Lookup(original)
    {
      shards := map[];
      for i := 0 to |original|
        invariant shards == Lookup(original[..i])
      {
        assert original[..i + 1][..i] == original[..i];
        shards := shards[original[i].id := original[i]];
      }
      assert original[..|original|] == original;
    }

    /** Populates the depth of every shard of the batch in list order, stopping
        at the first parent cycle met. */
    method PopulateAll(original: seq<Shard>, shards: map<string, Shard>)
      returns (r: Result<map<string, Slot>>, ghost cycle: seq<string>)
      requires shards == Lookup(original)
      ensures r.Ok? ==> MemoInv(shards, r.value, [])
      ensures r.Ok? ==> forall j :: 0 <= j < |original| ==> Settled(shards, r.value, original[j].id)
      ensures r.Err? ==> r.error.CircularDependency? && IsCycle(shards, cycle) && cycle[0] == r.error.shardId
    {
      var processed: map<string, Slot> := map[];
      cycle := [];
      for i := 0 to |original|
        invariant MemoInv(shards, processed, [])
        invariant forall j :: 0 <= j < i ==> Settled(shards, processed, original[j].id)
      {
        var depth, next;
        depth, next, cycle := PopulateDepth(original[i].id, shards, processed, []);
        if depth.Err? {
          return Err(depth.error), cycle;
        }
        SettledStays(shards, processed, next, original, i);
        processed := next;
      }
      return Ok(processed), cycle;
    }

    /** Resolves the depth of shardId: 0 when absent or completed, the memoised
        depth when already resolved, otherwise 1 + the largest depth among its
        parents, resolved first. Meeting an id that is still in progress is a
        parent cycle. */
    method PopulateDepth(shardId: string, shards: map<string, Shard>, processed: map<string, Slot>, ghost path: seq<string>)
      returns (r: Result<nat>, processed': map<string, Slot>, ghost cycle: seq<string>)
      requires forall k :: k in shards ==> shards[k].id == k
      requires MemoInv(shards, processed, path)
      requires path != [] ==> path[|path| - 1] in shards && shardId in shards[path[|path| - 1]].parents
      decreases shards.Keys - processed.Keys, 0
      ensures r.Ok? ==> MemoInv(shards, processed', path) && Extends(processed, processed')
      ensures r.Ok? ==> Settled(shards, processed', shardId) && r.value == DepthOf(ResolvedDepths(processed'), shardId)
      ensures r.Err? ==> r.error.CircularDependency? && IsCycle(shards, cycle) && cycle[0] == r.error.shardId
    {
      cycle := [];
      if shardId in processed {
        if processed[shardId].Processing? {
          ghost var i :| 0 <= i < |path| && path[i] == shardId;
          cycle := path[i..] + [shardId];
          CycleFromPath(shards, processed, path, i, shardId);
          return Err(CircularDependency(shardId)), processed, cycle;
        }
        return Ok(processed[shardId].node.depth), processed, cycle;
      }
      if shardId !in shards {
        // the parent is not in this batch: a root-level node
        return Ok(0), processed, cycle;
      }
      var shard := shards[shardId];
      if shard.completed {
        return Ok(0), processed, cycle;
      }

      // mark the shard in progress so that meeting it again reveals a cycle
      var memo := processed[shardId := Processing];
      MarkInProgress(shards, processed, path, shardId);
      assert shards.Keys - memo.Keys < shards.Keys - processed.Keys by {
        assert shardId in shards.Keys - processed.Keys;
      }
      var maxParentDepth;
      maxParentDepth, memo, cycle := PopulateParents(shardId, shards, memo, path);
      if maxParentDepth.Err? {
        return maxParentDepth, memo, cycle;
      }

      var node := SortingNode(shard, maxParentDepth.value + 1);
      var previous := memo[shardId];
      processed' := memo[shardId := Resolved(node)];
      // the defensive "populated twice" check cannot fail
      assert previous == Processing;

      MarkResolved(shards, processed, memo, path, shardId, maxParentDepth.value);
      r := Ok(maxParentDepth.value + 1);
    }

    /** The loop of populateDepth over the parents of an in-progress shard:
        resolves each parent in turn and keeps the largest depth (Math.max from 0). */
    method PopulateParents(shardId: string, shards: map<string, Shard>, processed: map<string, Slot>, ghost path: seq<string>)
      returns (r: Result<nat>, processed': map<string, Slot>, ghost cycle: seq<string>)
      requires forall k :: k in shards ==> shards[k].id == k
      requires Active(shards, shardId)
      requires MemoInv(shards, processed, path + [shardId])
      decreases shards.Keys - processed.Keys, 1
      ensures r.Ok? ==> MemoInv(shards, processed', path + [shardId]) && Extends(processed, processed')
      ensures r.Ok? ==> forall p :: p in shards[shardId].parents ==> Settled(shards, processed', p)
      ensures r.Ok? ==> r.value == MaxOf(ResolvedDepths(processed'), shards[shardId].parents)
      ensures r.Err? ==> r.error.CircularDependency? && IsCycle(shards, cycle) && cycle[0] == r.error.shardId
    {
      ghost var inner := path + [shardId];
      var ps := shards[shardId].parents;
      var maxParentDepth := 0;
      var memo := processed;
      cycle := [];
      for i := 0 to |ps|
        invariant MemoInv(shards, memo, inner)
        invariant Extends(processed, memo)
        invariant forall p :: p in ps[..i] ==> Settled(shards, memo, p)
        invariant maxParentDepth == MaxOf(ResolvedDepths(memo), ps[..i])
      {
        assert shards.Keys - memo.Keys <= shards.Keys - processed.Keys;
        var depth, next, cyc := PopulateDepth(ps[i], shards, memo, inner);
        if depth.Err? {
          return depth, next, cyc;
        }
        ParentStep(shards, processed, memo, next, ps, i, maxParentDepth, depth.value);
        maxParentDepth := if maxParentDepth < depth.value then depth.value else maxParentDepth;
        memo := next;
      }
      assert ps[..|ps|] == ps;
      return Ok(maxParentDepth), memo, cycle;
    }
  }

  /** One turn of the parent loop: resolving parent ps[i] keeps the earlier
      parents settled at the same depths and folds its depth into the maximum. */
  lemma ParentStep(shards: map<string, Shard>, processed: map<string, Slot>, memo: map<string, Slot>, next: map<string, Slot>,
                   ps: seq<string>, i: nat, before: nat, depth: nat)
    requires i < |ps|
    requires KeysActive(shards, next)
    requires Extends(processed, memo) && Extends(memo, next)
    requires forall p :: p in ps[..i] ==> Settled(shards, memo, p)
    requires before == MaxOf(ResolvedDepths(memo), ps[..i])
    requires Settled(shards, next, ps[i]) && depth == DepthOf(ResolvedDepths(next), ps[i])
    ensures Extends(processed, next)
    ensures forall p :: p in ps[..i + 1] ==> Settled(shards, next, p)
    ensures (if before < depth then depth else before) == MaxOf(ResolvedDepths(next), ps[..i + 1])
  {
    AgreeOnSettled(shards, memo, next, ps[..i]);
    assert ps[..i + 1][..i] == ps[..i];
    assert ps[..i + 1] == ps[..i] + [ps[i]];
  }

  /** Marking an unvisited active id in progress extends the chain by it. */
  lemma MarkInProgress(shards: map<string, Shard>, processed: map<string, Slot>, path: seq<string>, id: string)
    requires MemoInv(shards, processed, path)
    requires Active(shards, id) && id !in processed
    requires path != [] ==> path[|path| - 1] in shards && id in shards[path[|path| - 1]].parents
    ensures MemoInv(shards, processed[id := Processing], path + [id])
    ensures Extends(processed, processed[id := Processing])
  {
    var memo, inner := processed[id := Processing], path + [id];
    StableResolved(shards, processed, memo);
    forall k | k in memo ensures memo[k].Processing? <==> k in inner {
      if k != id {
        assert k in inner <==> k in path;
      }
    }
    forall i | 0 <= i < |inner| - 1 ensures inner[i] in shards && inner[i + 1] in shards[inner[i]].parents {
      if i < |path| - 1 {
        assert inner[i] == path[i] && inner[i + 1] == path[i + 1];
      }
    }
  }

  /** Replacing the in-progress marker of id by its resolved node, once its
      parents are settled, restores the memo invariant for the shorter chain. */
  lemma MarkResolved(shards: map<string, Shard>, processed: map<string, Slot>, memo: map<string, Slot>, path: seq<string>, id: string, maxParentDepth: nat)
    requires MemoInv(shards, processed, path) && Active(shards, id) && id !in processed
    requires MemoInv(shards, memo, path + [id])
    requires Extends(processed[id := Processing], memo)
    requires forall p :: p in shards[id].parents ==> Settled(shards, memo, p)
    requires maxParentDepth == MaxOf(ResolvedDepths(memo), shards[id].parents)
    ensures var done := memo[id := Resolved(SortingNode(shards[id], maxParentDepth + 1))];
      && MemoInv(shards, done, path)
      && Extends(processed, done)
      && Settled(shards, done, id)
      && DepthOf(ResolvedDepths(done), id) == maxParentDepth + 1
  {
    var done := memo[id := Resolved(SortingNode(shards[id], maxParentDepth + 1))];
    assert memo[id] == Processing;
    assert id !in path;
    assert KeysActive(shards, done);
    assert ResolvedCorrect(shards, done) by {
      ResolveMarked(shards, memo, id, maxParentDepth);
    }
    assert Extends(processed, done) by {
      forall k | k in processed && processed[k].Resolved? ensures done[k] == processed[k] {
        assert k != id;
        assert processed[id := Processing][k] == processed[k];
      }
    }
    assert MarksPath(done, path) by {
      forall k | k in done ensures done[k].Processing? <==> k in path {
        if k != id {
          assert k in path + [id] <==> k in path;
        }
      }
    }
    assert PathLinks(shards, path) by {
      forall i | 0 <= i < |path| - 1 ensures path[i] in shards && path[i + 1] in shards[path[i]].parents {
        assert (path + [id])[i] == path[i] && (path + [id])[i + 1] == path[i + 1];
      }
    }
  }

  /** Resolving an in-progress id whose parents are all settled, at one more
      than their largest depth, keeps every resolved entry correct. */
  lemma ResolveMarked(shards: map<string, Shard>, memo: map<string, Slot>, id: string, maxParentDepth: nat)
    requires KeysActive(shards, memo) && ResolvedCorrect(shards, memo)
    requires Active(shards, id) && id in memo && memo[id] == Processing
    requires forall p :: p in shards[id].parents ==> Settled(shards, memo, p)
    requires maxParentDepth == MaxOf(ResolvedDepths(memo), shards[id].parents)
    ensures ResolvedCorrect(shards, memo[id := Resolved(SortingNode(shards[id], maxParentDepth + 1))])
  {
    var done := memo[id := Resolved(SortingNode(shards[id], maxParentDepth + 1))];
    assert Extends(memo, done);
    StableResolved(shards, memo, done);
    forall k | IsResolved(done, k) ensures k in shards && Resolves(shards, done, k) {
      if k == id {
        AgreeOnSettled(shards, memo, done, shards[id].parents);
      } else {
        assert memo[k] == done[k];
        assert IsResolved(memo, k);
      }
    }
  }

  /** An id met again while in progress closes a cycle along the in-progress chain. */
  lemma CycleFromPath(shards: map<string, Shard>, memo: map<string, Slot>, path: seq<string>, i: int, id: string)
    requires MemoInv(shards, memo, path)
    requires 0 <= i < |path| && path[i] == id
    requires path[|path| - 1] in shards && id in shards[path[|path| - 1]].parents
    ensures IsCycle(shards, path[i..] + [id])
  {
    var c := path[i..] + [id];
    forall j | 0 <= j < |c| - 1 ensures Active(shards, c[j]) && c[j + 1] in shards[c[j]].parents {
      assert c[j] == path[i + j];
      assert c[j] in memo;
      if i + j + 1 < |path| {
        assert c[j + 1] == path[i + j + 1];
      }
    }
  }

  /** Copies the resolved nodes out of the memo in the map's own, unspecified order. */
  method CollectNodes(processed: map<string, Slot>) returns (nodes: seq<SortingNode>)
    requires forall k :: k in processed ==> processed[k].Resolved? && processed[k].node.shard.id == k
    ensures forall m :: 0 <= m < |nodes| ==> nodes[m].shard.id in processed && processed[nodes[m].shard.id] == Resolved(nodes[m])
    ensures forall m, n :: 0 <= m < n < |nodes| ==> nodes[m].shard.id != nodes[n].shard.id
    ensures NodeIds(nodes) == processed.Keys
  {
    nodes := [];
    var rest := processed.Keys;
    while rest != {}
      invariant rest <= processed.Keys
      invariant forall m :: 0 <= m < |nodes| ==> nodes[m].shard.id in processed && processed[nodes[m].shard.id] == Resolved(nodes[m])
      invariant forall m, n :: 0 <= m < n < |nodes| ==> nodes[m].shard.id != nodes[n].shard.id
      invariant NodeIds(nodes) == processed.Keys - rest
      decreases rest
    {
      var k :| k in rest;
      var node := processed[k].node;
      ghost var before := nodes;
      nodes := nodes + [node];
      rest := rest - {k};
      assert NodeIds(nodes) == NodeIds(before) + {k} by {
        assert nodes[|before|].shard.id == k;
        forall x | x in NodeIds(nodes) ensures x in NodeIds(before) + {k} {
          var m :| 0 <= m < |nodes| && nodes[m].shard.id == x;
          if m < |before| { assert before[m].shard.id == x; }
        }
        forall x | x in NodeIds(before) ensures x in NodeIds(nodes) {
          var m :| 0 <= m < |before| && before[m].shard.id == x;
          assert nodes[m].shard.id == x;
        }
      }
    }
  }

  /** Sorts the nodes in place, ascending by CompareTo (Collections.sort). */
  method SortNodes(a: array<SortingNode>)
    modifies a
    ensures SortedByDepth(a[..])
    ensures multiset(a[..]) == old(multiset(a[..]))
  {
    for i := 0 to a.Length
      invariant SortedPrefix(a, i)
      invariant multiset(a[..]) == old(multiset(a[..]))
    {
      InsertLast(a, i);
    }
  }

  /** The first n nodes of a are in non-decreasing depth. */
  ghost predicate SortedPrefix(a: array<SortingNode>, n: int)
    requires 0 <= n <= a.Length
    reads a
  {
    SortedByDepth(a[..n])
  }

  /** Moves a[i] down past every deeper node before it, so that the sorted
      prefix grows by one. */
  method InsertLast(a: array<SortingNode>, i: int)
    requires 0 <= i < a.Length && SortedPrefix(a, i)
    modifies a
    ensures SortedPrefix(a, i + 1)
    ensures multiset(a[..]) == old(multiset(a[..]))
  {
    var j := i;
    while 0 < j && CompareTo(a[j - 1], a[j]) > 0
      invariant 0 <= j <= i
      invariant forall m, k :: 0 <= m < k <= i && k != j ==> a[m].depth <= a[k].depth
      invariant multiset(a[..]) == old(multiset(a[..]))
    {
      Swap(a, j - 1, j);
      j := j - 1;
    }
  }

  /** Keeps, in order, the shards of the nodes whose depth is at most maxDepth. */
  method FilterByDepth(nodes: seq<SortingNode>, maxDepth: int) returns (infos: seq<Shard>)
    ensures infos == Filter(nodes, maxDepth)
  {
    infos := [];
    for i := 0 to |nodes|
      invariant infos == Filter(nodes[..i], maxDepth)
    {
      assert nodes[..i + 1][..i] == nodes[..i];
      if nodes[i].depth <= maxDepth {
        infos := infos + [nodes[i].shard];
      }
    }
    assert nodes[..|nodes|] == nodes;
  }
}
