/**
 * The persisted cluster table and the three Database operations the declarative
 * reconcile relies on. The storage engine itself is not part of this model: its
 * behaviour is given here as the collaborator's contract, a map keyed by
 * (projectId, instanceId, clusterId).
 */
module Db {

  /** Java `Integer` bounds; the reconcile does no arithmetic on them. */
  newtype int32 = x: int | -0x8000_0000 <= x < 0x8000_0000

  /** A Java `Double` carried as its IEEE-754 bit pattern and compared only for equality. */
  datatype CpuTarget = CpuTarget(bits: bv64)

  /** The configuration of one autoscaled Bigtable cluster, as written and read back. */
  datatype BigtableCluster = BigtableCluster(
    projectId: string,
    instanceId: string,
    clusterId: string,
    minNodes: int32,
    maxNodes: int32,
    cpuTarget: CpuTarget,
    enabled: bool)

  /** The identity of a stored row. */
  datatype ClusterKey = ClusterKey(projectId: string, instanceId: string, clusterId: string)

  function KeyOf(c: BigtableCluster): ClusterKey {
    ClusterKey(c.projectId, c.instanceId, c.clusterId)
  }

  predicate InInstance(k: ClusterKey, projectId: string, instanceId: string) {
    k.projectId == projectId && k.instanceId == instanceId
  }

  type Table = map<ClusterKey, BigtableCluster>

  /** Every row is stored under its own identity. */
  ghost predicate WellKeyed(t: Table) {
    forall k :: k in t ==> KeyOf(t[k]) == k
  }

  function KeysOf(clusters: set<BigtableCluster>): set<ClusterKey> {
    set c | c in clusters :: KeyOf(c)
  }

  /** The keys of one instance's rows. */
  function InstanceKeys(t: Table, projectId: string, instanceId: string): set<ClusterKey> {
    set k | k in t && InInstance(k, projectId, instanceId)
  }

  /** The table after upserting one cluster: its row is inserted or replaced. */
  function Upserted(t: Table, c: BigtableCluster): Table {
    t[KeyOf(c) := c]
  }

  /** The rows of the instance whose cluster id is not kept. */
  function AbsentKeys(t: Table, projectId: string, instanceId: string, keep: set<string>): set<ClusterKey> {
    set k | k in t && InInstance(k, projectId, instanceId) && k.clusterId !in keep
  }

  /** The table after deleting every row of the instance except the kept ids. */
  function DeletedExcept(t: Table, projectId: string, instanceId: string, keep: set<string>): Table {
    t - AbsentKeys(t, projectId, instanceId, keep)
  }

  /**
   * `after` is what `before` becomes once every cluster of `done` has been upserted,
   * one at a time and in some order: the touched keys are exactly those of `done`, each
   * touched row holds one of `done`'s clusters with that key, and every other row is as
   * before.
   */
  ghost predicate UpsertsApplied(before: Table, after: Table, done: set<BigtableCluster>) {
    && (forall k :: k in after <==> k in before || k in KeysOf(done))
    && (forall k :: k in after && k !in KeysOf(done) ==> after[k] == before[k])
    && (forall k :: k in after && k in KeysOf(done) ==> after[k] in done && KeyOf(after[k]) == k)
  }

  /** `clusters` lists the rows of one instance, each once, in some order. */
  ghost predicate ListsInstance(clusters: seq<BigtableCluster>, t: Table, projectId: string, instanceId: string) {
    ListsKeys(clusters, t, InstanceKeys(t, projectId, instanceId))
  }

  /** `clusters` lists the rows stored under `keys`, each once. */
  ghost predicate ListsKeys(clusters: seq<BigtableCluster>, t: Table, keys: set<ClusterKey>) {
    && (forall j :: 0 <= j < |clusters| ==> KeyOf(clusters[j]) in keys && KeyOf(clusters[j]) in t && t[KeyOf(clusters[j])] == clusters[j])
    && (forall k :: k in keys ==> k in t && t[k] in clusters)
    && (forall j, j' :: 0 <= j < j' < |clusters| ==> KeyOf(clusters[j]) != KeyOf(clusters[j']))
    && |clusters| == |keys|
  }

  /** Appending the row of one more key keeps the listing exact. */
  lemma ListsKeysStep(clusters: seq<BigtableCluster>, t: Table, keys: set<ClusterKey>, k: ClusterKey)
    requires WellKeyed(t) && k in t && k !in keys
    requires ListsKeys(clusters, t, keys)
    ensures ListsKeys(clusters + [t[k]], t, keys + {k})
  {
    var clusters' := clusters + [t[k]];
    assert forall j :: 0 <= j < |clusters| ==> clusters'[j] == clusters[j];
    assert clusters'[|clusters|] == t[k];
  }

  /** A call that changes the table, as the Database receives it. */
  datatype Call =
    | Upsert(cluster: BigtableCluster)
    | DeleteExcept(projectId: string, instanceId: string, keep: set<string>)

  /** The upsert calls for `clusters`, in that order. */
  function UpsertCalls(clusters: seq<BigtableCluster>): seq<Call> {
    if clusters == [] then [] else UpsertCalls(clusters[..|clusters| - 1]) + [Upsert(clusters[|clusters| - 1])]
  }

  /** The j-th upsert call is for the j-th cluster, and there is one call per cluster. */
  lemma {:induction false} UpsertCallsAt(clusters: seq<BigtableCluster>)
    ensures |UpsertCalls(clusters)| == |clusters|
    ensures forall j :: 0 <= j < |clusters| ==> UpsertCalls(clusters)[j] == Upsert(clusters[j])
  {
    if clusters != [] {
      var front := clusters[..|clusters| - 1];
      UpsertCallsAt(front);
      assert forall j :: 0 <= j < |front| ==> clusters[j] == front[j];
    }
  }

  /** One more upsert call extends the calls by that call. */
  lemma UpsertCallsAppend(clusters: seq<BigtableCluster>, c: BigtableCluster)
    ensures UpsertCalls(clusters + [c]) == UpsertCalls(clusters) + [Upsert(c)]
  {
    assert (clusters + [c])[..|clusters|] == clusters;
  }

  /** Upserting the same cluster twice leaves the table as upserting it once. */
  lemma UpsertIdempotent(t: Table, c: BigtableCluster)
    ensures Upserted(Upserted(t, c), c) == Upserted(t, c)
  {
  }

  /** One more upsert extends the set of applied upserts by that cluster. */
  lemma UpsertStep(before: Table, mid: Table, done: set<BigtableCluster>, c: BigtableCluster)
    requires UpsertsApplied(before, mid, done)
    ensures UpsertsApplied(before, Upserted(mid, c), done + {c})
  {
    assert KeysOf(done + {c}) == KeysOf(done) + {KeyOf(c)};
  }

  /**
   * Delete-except touches only the named instance: it keeps exactly the instance rows
   * whose id is kept, every other row is unchanged, and a second call removes nothing.
   */
  lemma DeletedExceptFacts(t: Table, projectId: string, instanceId: string, keep: set<string>)
    requires WellKeyed(t)
    ensures var t' := DeletedExcept(t, projectId, instanceId, keep);
      && WellKeyed(t')
      && (forall k :: k in t' <==> k in t && (InInstance(k, projectId, instanceId) ==> k.clusterId in keep))
      && (forall k :: k in t' ==> t'[k] == t[k])
      && AbsentKeys(t', projectId, instanceId, keep) == {}
      && |t'| == |t| - |AbsentKeys(t, projectId, instanceId, keep)|
  {
    var gone := AbsentKeys(t, projectId, instanceId, keep);
    var t' := DeletedExcept(t, projectId, instanceId, keep);
    assert t'.Keys == t.Keys - gone;
    assert gone <= t.Keys;
    assert |t.Keys - gone| == |t.Keys| - |gone|;
  }

  /**
   * The Database collaborator: one table of clusters shared by all instances.
   */
  class Database {
    var rows: Table
    /** The table-changing calls received so far, oldest first. */
    ghost var calls: seq<Call>

    ghost predicate Valid()
      reads this
    {
      WellKeyed(rows)
    }

    /** Inserts or replaces the row of `cluster`'s identity. */
    method ReconcileBigtableCluster(cluster: BigtableCluster)
      requires Valid()
      modifies this
      ensures Valid()
      ensures rows == Upserted(old(rows), cluster)
      ensures calls == old(calls) + [Upsert(cluster)]
    {
      rows := rows[KeyOf(cluster) := cluster];
      calls := calls + [Upsert(cluster)];
    }

    /**
     * Deletes every row of the instance whose cluster id is not in `clusterIds` and
     * returns how many rows it removed.
     */
    method DeleteBigtableClustersExcept(projectId: string, instanceId: string, clusterIds: set<string>)
      returns (deleted: nat)
      requires Valid()
      modifies this
      ensures Valid()
      ensures rows == DeletedExcept(old(rows), projectId, instanceId, clusterIds)
      ensures deleted == |AbsentKeys(old(rows), projectId, instanceId, clusterIds)|
      ensures calls == old(calls) + [DeleteExcept(projectId, instanceId, clusterIds)]
    {
      var absent := AbsentKeys(rows, projectId, instanceId, clusterIds);
      rows := rows - absent;
      calls := calls + [DeleteExcept(projectId, instanceId, clusterIds)];
      deleted := |absent|;
    }

    /** Lists the instance's rows, each once, in no particular order. */
    method GetBigtableClusters(projectId: string, instanceId: string) returns (clusters: seq<BigtableCluster>)
      requires Valid()
      ensures ListsInstance(clusters, rows, projectId, instanceId)
    {
      var todo := InstanceKeys(rows, projectId, instanceId);
      ghost var seen: set<ClusterKey> := {};
      clusters := [];
      while todo != {}
        invariant todo + seen == InstanceKeys(rows, projectId, instanceId) && todo !! seen
        invariant ListsKeys(clusters, rows, seen)
        decreases todo
      {
        var k :| k in todo;
        ListsKeysStep(clusters, rows, seen, k);
        clusters := clusters + [rows[k]];
        todo := todo - {k};
        seen := seen + {k};
      }
    }
  }
}
