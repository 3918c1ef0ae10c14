/**
 * The declarative reconcile endpoint: it derives the desired set of clusters from a
 * request, converges the instance's stored rows to it, checks the stored count and
 * builds the reply.
 */
module Api {
  import opened Wrappers
  import opened Db
  import opened ApiTypes

  // ---------------------------------------------------------------------------
  // Desired-state resolver
  // ---------------------------------------------------------------------------

  /** The spec fields a cluster carries; left inverse of GetBigtableCluster. */
  function SpecOf(c: BigtableCluster): ClusterSpec {
    ClusterSpec(c.clusterId, c.minNodes, c.maxNodes, c.cpuTarget)
  }

  /**
   * The cluster a spec entry stands for: it belongs to the given project and instance,
   * copies the spec's fields and is always enabled.
   */
  function GetBigtableCluster(projectId: string, instanceId: string, cluster: ClusterSpec): (c: BigtableCluster)
    ensures c.projectId == projectId && c.instanceId == instanceId && c.enabled
    ensures SpecOf(c) == cluster
  {
    BigtableCluster(projectId, instanceId, cluster.clusterId, cluster.minNodes, cluster.maxNodes,
                    cluster.cpuTarget, true)
  }

  /** Every enabled cluster is what its own spec fields produce. */
  lemma BigtableClusterRoundTrip(c: BigtableCluster)
    requires c.enabled
    ensures GetBigtableCluster(c.projectId, c.instanceId, SpecOf(c)) == c
  {
  }

  /**
   * The desired set: empty while deletion is in progress, otherwise one enabled cluster of
   * this instance per distinct spec entry (identical entries collapse to one).
   */
  function GetClustersDesiredState(projectId: string, instanceId: string,
                                   arraySpecClusters: seq<ClusterSpec>, isDeletionInProgress: bool)
    : (desired: set<BigtableCluster>)
    ensures isDeletionInProgress ==> desired == {}
    ensures !isDeletionInProgress ==> forall c ::
      c in desired <==> c.projectId == projectId && c.instanceId == instanceId && c.enabled
                        && SpecOf(c) in arraySpecClusters
    ensures !isDeletionInProgress ==> |desired| == |set s | s in arraySpecClusters|
    ensures desired == {} <==> isDeletionInProgress || arraySpecClusters == []
  {
    var setSpecClusters := if isDeletionInProgress then {} else set s | s in arraySpecClusters;
    SpecImage(projectId, instanceId, setSpecClusters);
    assert !isDeletionInProgress && arraySpecClusters != [] ==> arraySpecClusters[0] in setSpecClusters;
    set s | s in setSpecClusters :: GetBigtableCluster(projectId, instanceId, s)
  }

  /** The clusters built from a set of specs are the enabled clusters of the instance with those specs, one per spec. */
  lemma SpecImage(projectId: string, instanceId: string, specs: set<ClusterSpec>)
    ensures var image := set s | s in specs :: GetBigtableCluster(projectId, instanceId, s);
      && (forall c :: c in image <==> c.projectId == projectId && c.instanceId == instanceId && c.enabled
                                      && SpecOf(c) in specs)
      && |image| == |specs|
  {
    var image := set s | s in specs :: GetBigtableCluster(projectId, instanceId, s);
    forall c: BigtableCluster | c.projectId == projectId && c.instanceId == instanceId && c.enabled && SpecOf(c) in specs
      ensures c in image
    {
      BigtableClusterRoundTrip(c);
    }
    SpecImageSize(projectId, instanceId, specs);
  }

  /** Distinct specs build distinct clusters. */
  lemma {:induction false} SpecImageSize(projectId: string, instanceId: string, specs: set<ClusterSpec>)
    ensures |(set s | s in specs :: GetBigtableCluster(projectId, instanceId, s))| == |specs|
  {
    if specs != {} {
      var s :| s in specs;
      var rest := specs - {s};
      SpecImageSize(projectId, instanceId, rest);
      var c := GetBigtableCluster(projectId, instanceId, s);
      var restImage := set x | x in rest :: GetBigtableCluster(projectId, instanceId, x);
      assert (set x | x in specs :: GetBigtableCluster(projectId, instanceId, x)) == restImage + {c};
      assert s !in rest;
    }
  }

  /** No two clusters of the set share a cluster id. */
  ghost predicate IdsDistinct(clusters: set<BigtableCluster>) {
    forall c, d :: c in clusters && d in clusters && c.clusterId == d.clusterId ==> c == d
  }

  /** Projecting clusters to their ids never grows the set, and keeps its size iff ids are distinct. */
  lemma {:induction false} IdImageSize(clusters: set<BigtableCluster>)
    ensures |(set c | c in clusters :: c.clusterId)| <= |clusters|
    ensures |(set c | c in clusters :: c.clusterId)| == |clusters| <==> IdsDistinct(clusters)
  {
    if clusters != {} {
      var c :| c in clusters;
      var rest := clusters - {c};
      IdImageSize(rest);
      var ids := set d | d in clusters :: d.clusterId;
      var restIds := set d | d in rest :: d.clusterId;
      assert ids == restIds + {c.clusterId};
      if c.clusterId in restIds {
        var d :| d in rest && d.clusterId == c.clusterId;
        assert !IdsDistinct(clusters);
      } else {
        assert IdsDistinct(clusters) <==> IdsDistinct(rest);
      }
    }
  }

  /** The ids of the desired clusters: at most one per cluster, exactly one iff ids are distinct. */
  function GetClusterIds(clustersDesiredState: set<BigtableCluster>): (ids: set<string>)
    ensures forall id :: id in ids <==> exists c :: c in clustersDesiredState && c.clusterId == id
    ensures |ids| <= |clustersDesiredState|
    ensures |ids| == |clustersDesiredState| <==> IdsDistinct(clustersDesiredState)
  {
    IdImageSize(clustersDesiredState);
    set c | c in clustersDesiredState :: c.clusterId
  }

  /**
   * The count check can fail only when the request names one cluster id twice with
   * different settings: the desired set then keeps both entries but they share a row.
   */
  lemma DesiredIdsCollide(projectId: string, instanceId: string,
                          arraySpecClusters: seq<ClusterSpec>, isDeletionInProgress: bool)
    ensures var desired := GetClustersDesiredState(projectId, instanceId, arraySpecClusters, isDeletionInProgress);
      !IdsDistinct(desired) <==>
        !isDeletionInProgress &&
        exists s, t :: s in arraySpecClusters && t in arraySpecClusters && s.clusterId == t.clusterId && s != t
  {
    var desired := GetClustersDesiredState(projectId, instanceId, arraySpecClusters, isDeletionInProgress);
    if !IdsDistinct(desired) {
      var c, d :| c in desired && d in desired && c.clusterId == d.clusterId && c != d;
      assert SpecOf(c) in arraySpecClusters && SpecOf(d) in arraySpecClusters;
      assert SpecOf(c) != SpecOf(d);
    }
    if !isDeletionInProgress &&
       exists s, t :: s in arraySpecClusters && t in arraySpecClusters && s.clusterId == t.clusterId && s != t {
      var s, t :| s in arraySpecClusters && t in arraySpecClusters && s.clusterId == t.clusterId && s != t;
      var c, d := GetBigtableCluster(projectId, instanceId, s), GetBigtableCluster(projectId, instanceId, t);
      assert c in desired && d in desired && c != d;
    }
  }

  /** Two byte-identical spec entries give a desired set of one cluster. */
  lemma IdenticalSpecsCollapse(projectId: string, instanceId: string, spec: ClusterSpec)
    ensures GetClustersDesiredState(projectId, instanceId, [spec, spec], false)
         == {GetBigtableCluster(projectId, instanceId, spec)}
  {
    var desired := GetClustersDesiredState(projectId, instanceId, [spec, spec], false);
    assert (set s | s in [spec, spec]) == {spec};
  }

  /** Two entries for one cluster id with different bounds: two desired clusters but one id. */
  lemma SameIdDifferentBounds(projectId: string, instanceId: string, s: ClusterSpec, t: ClusterSpec)
    requires s.clusterId == t.clusterId && s != t
    ensures var desired := GetClustersDesiredState(projectId, instanceId, [s, t], false);
      |desired| == 2 && |GetClusterIds(desired)| == 1 && !IdsDistinct(desired)
  {
    var desired := GetClustersDesiredState(projectId, instanceId, [s, t], false);
    assert (set x | x in [s, t]) == {s, t};
    var c := GetBigtableCluster(projectId, instanceId, s);
    assert c in desired;
    assert GetClusterIds(desired) == {s.clusterId};
  }

  // ---------------------------------------------------------------------------
  // Reconciler: upserts followed by one delete-except
  // ---------------------------------------------------------------------------

  /** Every desired cluster belongs to the given project and instance. */
  ghost predicate OfInstance(desired: set<BigtableCluster>, projectId: string, instanceId: string) {
    forall c :: c in desired ==> c.projectId == projectId && c.instanceId == instanceId
  }

  /**
   * `after` has converged from `before` to `desired`: rows of other instances are as they
   * were, the instance holds exactly the desired cluster ids, and each of its rows is a
   * desired cluster.
   */
  ghost predicate ConvergedTo(before: Table, after: Table, projectId: string, instanceId: string,
                              desired: set<BigtableCluster>)
  {
    && (forall k :: !InInstance(k, projectId, instanceId) ==> (k in after <==> k in before))
    && (forall k :: k in after && !InInstance(k, projectId, instanceId) ==> after[k] == before[k])
    && (forall k :: InInstance(k, projectId, instanceId) ==> (k in after <==> k.clusterId in GetClusterIds(desired)))
    && (forall k :: k in after && InInstance(k, projectId, instanceId) ==> after[k] in desired)
  }

  /** Upserting every desired cluster and then deleting all other ids of the instance converges. */
  lemma UpsertThenDeleteConverges(before: Table, mid: Table, projectId: string, instanceId: string,
                                  desired: set<BigtableCluster>)
    requires OfInstance(desired, projectId, instanceId)
    requires UpsertsApplied(before, mid, desired)
    ensures ConvergedTo(before, DeletedExcept(mid, projectId, instanceId, GetClusterIds(desired)),
                        projectId, instanceId, desired)
  {
    var ids := GetClusterIds(desired);
    var after := DeletedExcept(mid, projectId, instanceId, ids);
    forall k | InInstance(k, projectId, instanceId)
      ensures k in after <==> k.clusterId in ids
      ensures k.clusterId in ids ==> k in KeysOf(desired)
    {
      if k.clusterId in ids {
        var c :| c in desired && c.clusterId == k.clusterId;
        assert KeyOf(c) == k;
      }
    }
    forall k | !InInstance(k, projectId, instanceId)
      ensures k !in KeysOf(desired)
    {
    }
  }

  /** Once converged to a desired set with distinct ids, every desired cluster is stored under its own key. */
  lemma ConvergedRowsAreDesired(before: Table, after: Table, projectId: string, instanceId: string,
                                desired: set<BigtableCluster>)
    requires WellKeyed(after) && OfInstance(desired, projectId, instanceId) && IdsDistinct(desired)
    requires ConvergedTo(before, after, projectId, instanceId, desired)
    ensures forall c :: c in desired ==> KeyOf(c) in after && after[KeyOf(c)] == c
  {
    forall c | c in desired
      ensures KeyOf(c) in after && after[KeyOf(c)] == c
    {
      var k := KeyOf(c);
      assert c.clusterId in GetClusterIds(desired);
      assert after[k] in desired && KeyOf(after[k]) == k;
    }
  }

  /** Distinct ids name distinct rows of one instance. */
  lemma {:induction false} KeyImageSize(projectId: string, instanceId: string, ids: set<string>)
    ensures |(set id | id in ids :: ClusterKey(projectId, instanceId, id))| == |ids|
  {
    if ids != {} {
      var id :| id in ids;
      var rest := ids - {id};
      KeyImageSize(projectId, instanceId, rest);
      var restKeys := set x | x in rest :: ClusterKey(projectId, instanceId, x);
      assert (set x | x in ids :: ClusterKey(projectId, instanceId, x)) == restKeys + {ClusterKey(projectId, instanceId, id)};
    }
  }

  /** After convergence the instance holds one row per desired cluster id. */
  lemma ConvergedInstanceSize(before: Table, after: Table, projectId: string, instanceId: string,
                              desired: set<BigtableCluster>)
    requires ConvergedTo(before, after, projectId, instanceId, desired)
    ensures |InstanceKeys(after, projectId, instanceId)| == |GetClusterIds(desired)|
  {
    var ids := GetClusterIds(desired);
    var keys := set id | id in ids :: ClusterKey(projectId, instanceId, id);
    KeyImageSize(projectId, instanceId, ids);
    forall k | k in InstanceKeys(after, projectId, instanceId) ensures k in keys {
      assert k == ClusterKey(projectId, instanceId, k.clusterId);
    }
    assert InstanceKeys(after, projectId, instanceId) == keys;
  }

  /**
   * A converged instance listed by the database is exactly the desired set when ids are
   * distinct.
   */
  lemma ConvergedListing(before: Table, after: Table, projectId: string, instanceId: string,
                         desired: set<BigtableCluster>, clusters: seq<BigtableCluster>)
    requires WellKeyed(after) && OfInstance(desired, projectId, instanceId) && IdsDistinct(desired)
    requires ConvergedTo(before, after, projectId, instanceId, desired)
    requires ListsInstance(clusters, after, projectId, instanceId)
    ensures forall c :: c in clusters <==> c in desired
    ensures |clusters| == |desired|
  {
    ConvergedRowsAreDesired(before, after, projectId, instanceId, desired);
    ConvergedInstanceSize(before, after, projectId, instanceId, desired);
    forall c | c in desired ensures c in clusters {
      assert KeyOf(c) in InstanceKeys(after, projectId, instanceId);
    }
  }

  /**
   * Re-upserting the desired clusters into a converged instance rewrites each row with the
   * value it already holds.
   */
  lemma ReupsertIsNoOp(t0: Table, t1: Table, mid: Table, projectId: string, instanceId: string,
                       desired: set<BigtableCluster>)
    requires WellKeyed(t1) && OfInstance(desired, projectId, instanceId) && IdsDistinct(desired)
    requires ConvergedTo(t0, t1, projectId, instanceId, desired)
    requires UpsertsApplied(t1, mid, desired)
    ensures mid == t1
  {
    ConvergedRowsAreDesired(t0, t1, projectId, instanceId, desired);
    forall k | k in mid ensures k in t1 && mid[k] == t1[k] {
      if k in KeysOf(desired) {
        var c :| c in desired && KeyOf(c) == k;
        assert mid[k] in desired && mid[k].clusterId == c.clusterId;
      }
    }
    forall k | k in t1 ensures k in mid {
    }
  }

  /**
   * Reconciling a converged instance again with the same desired set deletes nothing, even
   * when desired ids collide: the upserts only touch ids the delete-except keeps.
   */
  lemma SecondDeleteRemovesNothing(t0: Table, t1: Table, mid: Table, projectId: string, instanceId: string,
                                   desired: set<BigtableCluster>)
    requires OfInstance(desired, projectId, instanceId)
    requires ConvergedTo(t0, t1, projectId, instanceId, desired)
    requires UpsertsApplied(t1, mid, desired)
    ensures AbsentKeys(mid, projectId, instanceId, GetClusterIds(desired)) == {}
  {
    forall k | k in KeysOf(desired) ensures k.clusterId in GetClusterIds(desired) {
      var c :| c in desired && KeyOf(c) == k;
    }
  }

  /**
   * With distinct ids, reconciling a converged instance again with the same desired set
   * leaves the table as it was.
   */
  lemma ReconcileIdempotent(t0: Table, t1: Table, mid: Table, projectId: string, instanceId: string,
                            desired: set<BigtableCluster>)
    requires WellKeyed(t1) && OfInstance(desired, projectId, instanceId) && IdsDistinct(desired)
    requires ConvergedTo(t0, t1, projectId, instanceId, desired)
    requires UpsertsApplied(t1, mid, desired)
    ensures DeletedExcept(mid, projectId, instanceId, GetClusterIds(desired)) == t1
  {
    ReupsertIsNoOp(t0, t1, mid, projectId, instanceId, desired);
    SecondDeleteRemovesNothing(t0, t1, mid, projectId, instanceId, desired);
    assert t1 - {} == t1;
  }

  /**
   * The delete-except removes exactly the instance's previously stored rows whose id is not
   * desired: the upserts only add rows it keeps.
   */
  lemma DeletedAreStaleRows(before: Table, mid: Table, projectId: string, instanceId: string,
                            desired: set<BigtableCluster>)
    requires OfInstance(desired, projectId, instanceId)
    requires UpsertsApplied(before, mid, desired)
    ensures AbsentKeys(mid, projectId, instanceId, GetClusterIds(desired))
         == AbsentKeys(before, projectId, instanceId, GetClusterIds(desired))
  {
    var ids := GetClusterIds(desired);
    forall k | k in KeysOf(desired) ensures k.clusterId in ids {
      var c :| c in desired && KeyOf(c) == k;
    }
  }

  // ---------------------------------------------------------------------------
  // The controller
  // ---------------------------------------------------------------------------

  function ProjectIdOf(request: ReconcileRequest): string {
    request.forObject.metadata.namespace
  }

  function InstanceIdOf(request: ReconcileRequest): string {
    request.forObject.spec.instanceId
  }

  function DesiredStateOf(request: ReconcileRequest): set<BigtableCluster> {
    GetClustersDesiredState(ProjectIdOf(request), InstanceIdOf(request),
                            request.forObject.spec.cluster, request.deletionInProgress)
  }

  /** `order` lists the clusters of `s`, each once. */
  ghost predicate Enumerates(order: seq<BigtableCluster>, s: set<BigtableCluster>) {
    (forall c :: c in order <==> c in s) && |order| == |s|
  }

  /** Appending a cluster not yet listed extends the enumeration by that cluster. */
  lemma EnumeratesStep(order: seq<BigtableCluster>, s: set<BigtableCluster>, c: BigtableCluster)
    requires Enumerates(order, s) && c !in s
    ensures Enumerates(order + [c], s + {c})
  {
    assert forall x :: x in order + [c] <==> x in order || x == c;
  }

  /**
   * The state after the forEach of upserts has handled `done`, in the order `order`: the
   * calls so far are those upserts and the table reflects them.
   */
  ghost predicate UpsertProgress(before: Table, callsBefore: seq<Call>, rows: Table, calls: seq<Call>,
                                 done: set<BigtableCluster>, order: seq<BigtableCluster>)
  {
    && Enumerates(order, done)
    && calls == callsBefore + UpsertCalls(order)
    && UpsertsApplied(before, rows, done)
  }

  /** Upserting one more cluster, not yet handled, keeps the progress description exact. */
  lemma UpsertProgressStep(before: Table, callsBefore: seq<Call>, rows: Table, calls: seq<Call>,
                           done: set<BigtableCluster>, order: seq<BigtableCluster>, c: BigtableCluster)
    requires UpsertProgress(before, callsBefore, rows, calls, done, order) && c !in done
    ensures UpsertProgress(before, callsBefore, Upserted(rows, c), calls + [Upsert(c)], done + {c}, order + [c])
  {
    UpsertStep(before, rows, done, c);
    EnumeratesStep(order, done, c);
    UpsertCallsAppend(order, c);
    assert calls + [Upsert(c)] == callsBefore + (UpsertCalls(order) + [Upsert(c)]);
  }

  /** The reply names the same object as the request. */
  predicate EchoesIdentity(reply: ForObjectValue, request: ReconcileRequest) {
    && reply.apiVersion == request.forObject.apiVersion
    && reply.kind == request.forObject.kind
    && reply.namespace == request.forObject.metadata.namespace
    && reply.name == request.forObject.metadata.name
  }

  class DeclarativeAutoscalerController {
    const database: Database

    constructor (database: Database)
      ensures this.database == database
    {
      this.database := database;
    }

    /**
     * Converges the instance named by the request to its desired state. The database
     * receives one upsert per desired cluster, in some order (`order`), and then the one
     * delete-except; `upserted` is the table between the two. The reply is an error exactly
     * when two desired clusters share an id; otherwise it echoes the object, lists exactly
     * the desired clusters and says whether the set was empty.
     */
    method Reconcile(request: ReconcileRequest)
      returns (r: Result<ReconcileResponse, ReconcileError>, ghost order: seq<BigtableCluster>, ghost upserted: Table)
      requires database.Valid()
      modifies database
      ensures database.Valid()
      ensures var projectId, instanceId := ProjectIdOf(request), InstanceIdOf(request);
        var desired := DesiredStateOf(request);
        && Enumerates(order, desired)
        && database.calls == old(database.calls) + UpsertCalls(order)
                             + [DeleteExcept(projectId, instanceId, GetClusterIds(desired))]
        && UpsertsApplied(old(database.rows), upserted, desired)
        && database.rows == DeletedExcept(upserted, projectId, instanceId, GetClusterIds(desired))
        && ConvergedTo(old(database.rows), database.rows, projectId, instanceId, desired)
      ensures var desired := DesiredStateOf(request);
        && (r.Failure? <==> !IdsDistinct(desired))
        && (r.Failure? ==> r.error == IllegalState(|desired|, |GetClusterIds(desired)|))
      ensures r.Success? ==>
        var desired := DesiredStateOf(request);
        var reply := r.value.ensure.forObject;
        && EchoesIdentity(reply, request)
        && reply.status.Some?
        && ListsInstance(reply.status.value.clusters, database.rows, ProjectIdOf(request), InstanceIdOf(request))
        && (forall c :: c in reply.status.value.clusters <==> c in desired)
        && |reply.status.value.clusters| == |desired|
        && reply.deleted == Some(desired == {})
      ensures request.deletionInProgress ==>
        && r.Success?
        && r.value.ensure.forObject.status == Some(Status([]))
        && r.value.ensure.forObject.deleted == Some(true)
        && InstanceKeys(database.rows, ProjectIdOf(request), InstanceIdOf(request)) == {}
    {
      var config := request.forObject;
      var forObj := new ForObject(config.apiVersion, config.kind, config.metadata.namespace, config.metadata.name);
      var projectId := config.metadata.namespace;
      var instanceId := config.spec.instanceId;
      var clustersDesiredState := GetClustersDesiredState(projectId, instanceId, config.spec.cluster,
                                                          request.deletionInProgress);

      order := UpsertAll(clustersDesiredState);
      upserted := database.rows;
      DeleteAbsentClusters(projectId, instanceId, clustersDesiredState);
      UpsertThenDeleteConverges(old(database.rows), upserted, projectId, instanceId, clustersDesiredState);
      ConvergedInstanceSize(old(database.rows), database.rows, projectId, instanceId, clustersDesiredState);

      r := ReconcileResponse(projectId, instanceId, clustersDesiredState, forObj);
      if r.Success? {
        ConvergedListing(old(database.rows), database.rows, projectId, instanceId, clustersDesiredState,
                         r.value.ensure.forObject.status.value.clusters);
      }
    }

    /**
     * Upserts every desired cluster, one call each, in the set's unspecified iteration order
     * (`order`).
     */
    method UpsertAll(clustersDesiredState: set<BigtableCluster>) returns (ghost order: seq<BigtableCluster>)
      requires database.Valid()
      modifies database
      ensures database.Valid()
      ensures UpsertProgress(old(database.rows), old(database.calls), database.rows, database.calls,
                             clustersDesiredState, order)
    {
      var todo := clustersDesiredState;
      ghost var done: set<BigtableCluster> := {};
      order := [];
      while todo != {}
        invariant done + todo == clustersDesiredState && done !! todo
        invariant database.Valid()
        invariant UpsertProgress(old(database.rows), old(database.calls), database.rows, database.calls, done, order)
        decreases todo
      {
        var c :| c in todo;
        UpsertProgressStep(old(database.rows), old(database.calls), database.rows, database.calls, done, order, c);
        database.ReconcileBigtableCluster(c);
        order := order + [c];
        done := done + {c};
        todo := todo - {c};
      }
    }

    /** Removes the instance's rows whose id is not among the desired clusters' ids. */
    method DeleteAbsentClusters(projectId: string, instanceId: string, clustersDesiredState: set<BigtableCluster>)
      requires database.Valid()
      modifies database
      ensures database.Valid()
      ensures database.rows == DeletedExcept(old(database.rows), projectId, instanceId, GetClusterIds(clustersDesiredState))
      ensures database.calls == old(database.calls) + [DeleteExcept(projectId, instanceId, GetClusterIds(clustersDesiredState))]
    {
      var deletedClustersCount := database.DeleteBigtableClustersExcept(projectId, instanceId,
                                                                        GetClusterIds(clustersDesiredState));
    }

    /**
     * Re-reads the instance and fails if its row count differs from the desired set's size;
     * otherwise records the rows read and whether the desired set was empty in `forObj`.
     */
    method ReconcileResponse(projectId: string, instanceId: string, clustersDesiredState: set<BigtableCluster>,
                             forObj: ForObject)
      returns (r: Result<ReconcileResponse, ReconcileError>)
      requires database.Valid()
      modifies forObj
      ensures var stored := |InstanceKeys(database.rows, projectId, instanceId)|;
        && (r.Failure? <==> |clustersDesiredState| != stored)
        && (r.Failure? ==> r.error == IllegalState(|clustersDesiredState|, stored))
      ensures r.Failure? ==> forObj.status == old(forObj.status) && forObj.deleted == old(forObj.deleted)
      ensures r.Success? ==>
        && forObj.status.Some?
        && ListsInstance(forObj.status.value.clusters, database.rows, projectId, instanceId)
        && forObj.deleted == Some(clustersDesiredState == {})
        && r.value == ApiTypes.ReconcileResponse(EnsureResources(forObj.Value()))
    {
      var clustersFromDB := database.GetBigtableClusters(projectId, instanceId);
      if |clustersDesiredState| != |clustersFromDB| {
        return Failure(IllegalState(|clustersDesiredState|, |clustersFromDB|));
      }
      forObj.SetStatus(Status(clustersFromDB));
      forObj.SetDeleted(clustersDesiredState == {});
      r := Success(ApiTypes.ReconcileResponse(EnsureResources(forObj.Value())));
    }
  }
}
