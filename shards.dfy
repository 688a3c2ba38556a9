/** The shape every orderable work unit exposes (a shard id, the ids of its
    direct parents and a completion flag), the errors the scheduling rule can
    raise, and the batch-level views the rule reads: the id -> shard lookup a
    batch builds and the parent cycles it must refuse. */
module Shards {

  /** A shard or lease as the scheduler sees it. */
  datatype Shard = Shard(id: string, parents: seq<string>, completed: bool)

  /** Java's 32-bit `int`, the type of the depth bound. */
  newtype int32 = x: int | -0x8000_0000 <= x < 0x8000_0000

  /** Integer.MAX_VALUE */
  const IntMax: int32 := 0x7fff_ffff

  /** The two IllegalArgumentExceptions the rule throws. */
  datatype Error =
    | InvalidMaxDepth(maxDepth: int32)
    | CircularDependency(shardId: string)

  datatype Result<+T> = Ok(value: T) | Err(error: Error)

  /** The set of ids occurring in a list of shards. */
  function Ids(s: seq<Shard>): set<string> {
    set i | 0 <= i < |s| :: s[i].id
  }

  predicate DistinctIds(s: seq<Shard>) {
    forall i, j :: 0 <= i < j < |s| ==> s[i].id != s[j].id
  }

  /** No shard after position j carries the id of s[j]. */
  predicate LastWithId(s: seq<Shard>, j: int)
    requires 0 <= j < |s|
  {
    forall j' :: j < j' < |s| ==> s[j'].id != s[j].id
  }

  lemma IdsSnoc(s: seq<Shard>)
    requires s != []
    ensures Ids(s) == Ids(s[..|s| - 1]) + {s[|s| - 1].id}
  {
    var init := s[..|s| - 1];
    forall k | k in Ids(s) ensures k in Ids(init) + {s[|s| - 1].id} {
      var i :| 0 <= i < |s| && s[i].id == k;
      if i < |s| - 1 { assert init[i].id == k; }
    }
    forall k | k in Ids(init) ensures k in Ids(s) {
      var i :| 0 <= i < |init| && init[i].id == k;
      assert s[i].id == k;
    }
  }

  /** The id -> shard map a batch builds by putting every shard in list order:
      one entry per distinct id, keyed by that id. */
  function Lookup(s: seq<Shard>): (m: map<string, Shard>)
    ensures m.Keys == Ids(s)
    ensures forall k :: k in m ==> m[k].id == k
    ensures |m| <= |s|
  {
    if s == [] then map[]
    else
      IdsSnoc(s);
      Lookup(s[..|s| - 1])[s[|s| - 1].id := s[|s| - 1]]
  }

  /** Every entry of the lookup is the LAST shard of the batch with its id;
      j is its position. */
  lemma {:induction false} LookupKeepsLast(s: seq<Shard>, k: string) returns (j: nat)
    requires k in Lookup(s)
    ensures j < |s| && s[j] == Lookup(s)[k] && LastWithId(s, j)
  {
    var init, last := s[..|s| - 1], s[|s| - 1];
    assert Lookup(s) == Lookup(init)[last.id := last];
    if k == last.id {
      j := |s| - 1;
    } else {
      j := LookupKeepsLast(init, k);
      assert s[j] == init[j];
      forall j' | j < j' < |s| ensures s[j'].id != s[j].id {
        if j' < |s| - 1 { assert s[j'] == init[j']; }
      }
    }
  }

  /** A shard that still blocks scheduling: in the batch and not completed. */
  predicate Active(shards: map<string, Shard>, id: string) {
    id in shards && !shards[id].completed
  }

  function ActiveIds(shards: map<string, Shard>): set<string> {
    set k | k in shards && !shards[k].completed
  }

  /** c follows parent links among active shards and returns to its start. */
  ghost predicate IsCycle(shards: map<string, Shard>, c: seq<string>) {
    && |c| >= 2
    && c[0] == c[|c| - 1]
    && forall j :: 0 <= j < |c| - 1 ==> Active(shards, c[j]) && c[j + 1] in shards[c[j]].parents
  }

  ghost predicate HasCycle(shards: map<string, Shard>) {
    exists c :: IsCycle(shards, c)
  }

  /** Some parent cycle among active shards passes through id. */
  ghost predicate OnCycle(shards: map<string, Shard>, id: string) {
    exists c :: IsCycle(shards, c) && c[0] == id
  }
}
