/** The dependency depth of the parents-first rule, stated as a specification:
    a shard absent from the batch or completed has depth 0; an active shard has
    depth 1 + the largest depth among its parents. A depth map is the solution
    of these equations over the active shards of a batch. This module proves
    that the solution is unique, that it exists only on cycle-free batches, and
    that no depth exceeds the number of active shards. */
module Depths {
  import opened Shards

  /** Depth of an id under d: 0 for ids d does not hold (absent or completed). */
  function DepthOf(d: map<string, nat>, id: string): nat {
    if id in d then d[id] else 0
  }

  /** The largest depth among ps (Math.max folded from 0), 0 when ps is empty. */
  function MaxOf(d: map<string, nat>, ps: seq<string>): (m: nat)
    ensures forall p :: p in ps ==> DepthOf(d, p) <= m
    ensures m == 0 || exists p :: p in ps && DepthOf(d, p) == m
  {
    if ps == [] then 0
    else
      var init, last := ps[..|ps| - 1], ps[|ps| - 1];
      assert ps == init + [last];
      var prev := MaxOf(d, init);
      var here := DepthOf(d, last);
      if prev < here then here else prev
  }

  /** d assigns every active shard of the batch, and nothing else, its depth. */
  ghost predicate IsDepthMap(shards: map<string, Shard>, d: map<string, nat>) {
    && d.Keys == ActiveIds(shards)
    && forall k :: k in d ==> k in shards && d[k] == 1 + MaxOf(d, shards[k].parents)
  }

  /** Two maps that agree on every id of ps have the same largest parent depth. */
  lemma {:induction false} MaxOfAgree(d1: map<string, nat>, d2: map<string, nat>, ps: seq<string>)
    requires forall p :: p in ps ==> DepthOf(d1, p) == DepthOf(d2, p)
    ensures MaxOf(d1, ps) == MaxOf(d2, ps)
  {
    if ps != [] {
      var init := ps[..|ps| - 1];
      assert forall p :: p in init ==> p in ps;
      MaxOfAgree(d1, d2, init);
    }
  }

  /** An active parent of an active shard is strictly shallower. */
  lemma ParentShallower(shards: map<string, Shard>, d: map<string, nat>, k: string, p: string)
    requires IsDepthMap(shards, d)
    requires k in d && p in shards[k].parents && Active(shards, p)
    ensures p in d && d[p] < d[k]
  {
    assert p in ActiveIds(shards);
  }

  /** Depths up to n agree between any two depth maps of one batch. */
  lemma {:induction false} AgreeBelow(shards: map<string, Shard>, d1: map<string, nat>, d2: map<string, nat>, n: nat)
    requires IsDepthMap(shards, d1) && IsDepthMap(shards, d2)
    ensures forall k :: k in d1 && d1[k] <= n ==> k in d2 && d2[k] == d1[k]
  {
    if n > 0 {
      AgreeBelow(shards, d1, d2, n - 1);
    }
    forall k | k in d1 && d1[k] <= n ensures k in d2 && d2[k] == d1[k] {
      var ps := shards[k].parents;
      forall p | p in ps ensures DepthOf(d1, p) == DepthOf(d2, p) {
        if p in d1 {
          assert DepthOf(d1, p) <= MaxOf(d1, ps);
        }
      }
      MaxOfAgree(d1, d2, ps);
    }
  }

  /** The depth of a batch is a function of its parent/completion graph: there is
      at most one depth map. */
  lemma DepthMapUnique(shards: map<string, Shard>, d1: map<string, nat>, d2: map<string, nat>)
    requires IsDepthMap(shards, d1) && IsDepthMap(shards, d2)
    ensures d1 == d2
  {
    forall k | k in d1 ensures k in d2 && d2[k] == d1[k] {
      AgreeBelow(shards, d1, d2, d1[k]);
    }
  }

  /** Walking j steps along a cycle lowers the depth by at least j. */
  lemma {:induction false} DepthFallsAlongCycle(shards: map<string, Shard>, d: map<string, nat>, c: seq<string>, j: nat)
    requires IsDepthMap(shards, d) && IsCycle(shards, c) && j < |c|
    ensures c[j] in d && d[c[j]] + j <= d[c[0]]
  {
    if j == 0 {
      assert c[0] in ActiveIds(shards);
    } else {
      DepthFallsAlongCycle(shards, d, c, j - 1);
      if j < |c| - 1 {
        assert Active(shards, c[j]);
      }
      ParentShallower(shards, d, c[j - 1], c[j]);
    }
  }

  /** A batch with a depth map has no parent cycle among its active shards. */
  lemma DepthMapExcludesCycle(shards: map<string, Shard>, d: map<string, nat>)
    requires IsDepthMap(shards, d)
    ensures !HasCycle(shards)
  {
    if HasCycle(shards) {
      var c :| IsCycle(shards, c);
      DepthFallsAlongCycle(shards, d, c, |c| - 1);
    }
  }

  /** Every depth is at least 1, and every depth above 1 is one more than some
      other depth of the map. */
  ghost predicate StepsDown(d: map<string, nat>) {
    forall c :: c in d ==> 1 <= d[c] && (d[c] == 1 || exists p :: p in d && d[p] + 1 == d[c])
  }

  /** In a depth map every depth is at least 1, and a shard of depth n > 1 has
      an active parent of depth n - 1 (its deepest parent), so the map steps
      down one level at a time. */
  lemma DepthMapStepsDown(shards: map<string, Shard>, d: map<string, nat>)
    requires IsDepthMap(shards, d)
    ensures forall c :: c in d ==> 1 <= d[c]
    ensures forall c :: c in d && d[c] > 1 ==>
      exists p :: p in shards[c].parents && p in d && d[p] + 1 == d[c]
    ensures StepsDown(d)
  {
    forall c | c in d && d[c] > 1
      ensures exists p :: p in shards[c].parents && p in d && d[p] + 1 == d[c]
    {
      var ps := shards[c].parents;
      var p :| p in ps && DepthOf(d, p) == MaxOf(d, ps);
      assert p in d && d[p] + 1 == d[c];
    }
  }

  /** Below every id of depth n lie at least n distinct ids, none deeper. */
  lemma {:induction false} DeepestChain(d: map<string, nat>, k: string) returns (chain: set<string>)
    requires StepsDown(d) && k in d
    ensures chain <= d.Keys && |chain| >= d[k]
    ensures forall c :: c in chain ==> d[c] <= d[k]
    decreases d[k]
  {
    if d[k] == 1 {
      chain := {k};
    } else {
      var p :| p in d && d[p] + 1 == d[k];
      var below := DeepestChain(d, p);
      assert k !in below;
      chain := below + {k};
      CardAddOne(below, k);
    }
  }

  /** No depth exceeds the number of active shards in the batch. */
  lemma DepthBounded(shards: map<string, Shard>, d: map<string, nat>, k: string)
    requires IsDepthMap(shards, d) && k in d
    ensures d[k] <= |ActiveIds(shards)| <= |shards|
  {
    DepthMapStepsDown(shards, d);
    var chain := DeepestChain(d, k);
    assert |chain| <= |d.Keys| by {
      SubsetCard(chain, d.Keys);
    }
    SubsetCard(ActiveIds(shards), shards.Keys);
  }

  lemma CardAddOne<T>(s: set<T>, x: T)
    requires x !in s
    ensures |s + {x}| == |s| + 1
  {
  }

  lemma SubsetCard<T>(a: set<T>, b: set<T>)
    requires a <= b
    ensures |a| <= |b|
  {
    assert b == a + (b - a);
  }
}
