# Declarative reconcile of Bigtable autoscaler clusters

This project models the `/reconcile` endpoint of the Bigtable autoscaler,
`DeclarativeAutoscalerController.reconcile`, and proves properties of the model in Dafny.
One request names a BigtableAutoscaler resource, its Bigtable instance and an array of cluster specs.
The endpoint works in four steps:

1. **Desired-state resolver.** If deletion is in progress, the desired set is empty.
   Otherwise it is the set of distinct array entries, each turned into an enabled `BigtableCluster`
   of the resource's project (its namespace) and instance.
2. **Reconciler.** It upserts every desired cluster, in the set's unspecified iteration order.
   It then makes one bulk call: delete every cluster of the instance except the desired ids.
3. **Convergence verifier.** It re-reads the instance's clusters and raises `IllegalStateException`
   when their count differs from the size of the desired set.
4. **Response builder.** It fills the reply object, which echoes the resource's apiVersion, kind,
   namespace and name. `status` is set to the clusters read back, and `deleted` to whether the
   desired set was empty.

The storage engine behind `Database` is not part of this model. Its three operations are given
as a contract over one table keyed by (projectId, instanceId, clusterId), in the class
`Db.Database`:
- upsert of one row;
- delete-except, which returns the number of rows removed;
- a listing of one instance's rows in no particular order.

These semantics are read from the operations' names and from how the controller uses them.

Files:
- `wrappers.dfy`: the `Option` and `Result` types.
- `db.dfy`: the cluster record, the table functions and the `Database` collaborator. The collaborator
  keeps a ghost log of the table-changing calls it receives. It has no constructor of its own: the
  controller is handed an existing database, as the source's injection does.
- `api_types.dfy`: the decoded request and reply records, plus `ForObject`, the reply object that is filled in place.
- `controller.dfy`: the resolver functions, the convergence lemmas and the controller class.

Main results:
- After `Reconcile`, the instance's stored ids are exactly `GetClusterIds(desired)`.
- Every stored row of the instance is a desired cluster.
- Rows of other instances are unchanged.
- The database receives one upsert call per desired cluster, in some order, and then one delete-except
  call. The ghost results of `Reconcile` expose this: `order` is the upsert order, and the call log grows by
  exactly those upserts followed by the delete-except. The ghost result `upserted` is the table between the
  two steps, and the final table is `upserted` after the delete-except.
- The count check fails exactly when two desired clusters share a cluster id. At the request level, this is
  `DesiredIdsCollide`: deletion is not in progress and the array holds two different entries with the same
  `clusterId`, for example the same id with different bounds (`SameIdDifferentBounds`).
  Because of set semantics, both entries survive as desired members but collapse onto one stored row.
- Under this table contract, the count-only check is not weaker than comparing id sets: the stored ids
  always equal the desired ids, so the counts differ only when the ids collide.
- On success, the reply lists exactly the desired clusters, each once.
- A second reconcile with the same request deletes nothing. This holds even when desired ids collide
  (`SecondDeleteRemovesNothing`). With distinct ids, it also leaves the table unchanged (`ReconcileIdempotent`).
- A teardown request always succeeds. Its reply has an empty status and `deleted` set to true, and the
  instance is left without rows.

## Model

| member | source | states |
|---|---|---|
| `Api.GetBigtableCluster` | src/main/java/com/spotify/autoscaler/api/DeclarativeAutoscalerController.java:103-116 | the built cluster has the given project and instance, is enabled, and its spec fields (`SpecOf`) are exactly the entry's clusterId, minNodes, maxNodes and cpuTarget |
| `Api.BigtableClusterRoundTrip` | src/main/java/com/spotify/autoscaler/api/DeclarativeAutoscalerController.java:107-115 | every enabled cluster is rebuilt from its own project, instance and spec fields, so the builder and `SpecOf` are inverses |
| `Api.GetClustersDesiredState` | src/main/java/com/spotify/autoscaler/api/DeclarativeAutoscalerController.java:88-101 | empty while deletion is in progress; otherwise a cluster is desired iff it is an enabled cluster of this project and instance whose spec fields are an array entry; its size is the number of distinct entries; it is empty iff deletion is in progress or the array is empty |
| `Api.SpecImage` | src/main/java/com/spotify/autoscaler/api/DeclarativeAutoscalerController.java:97-100 | mapping a set of specs to clusters yields exactly the enabled clusters of the instance with those specs, one per spec |
| `Api.SpecImageSize` | src/main/java/com/spotify/autoscaler/api/DeclarativeAutoscalerController.java:97-100 | distinct specs build distinct clusters, so the mapped set has as many members as the spec set |
| `Api.IdenticalSpecsCollapse` | src/main/java/com/spotify/autoscaler/api/DeclarativeAutoscalerController.java:96 | an array holding the same entry twice gives a desired set of exactly one cluster |
| `Api.IdImageSize` | src/main/java/com/spotify/autoscaler/api/DeclarativeAutoscalerController.java:135-138 | projecting clusters to their ids never grows the set, and keeps its size iff no two clusters share an id |
| `Api.GetClusterIds` | src/main/java/com/spotify/autoscaler/api/DeclarativeAutoscalerController.java:134-139 | an id is returned iff some desired cluster has it; at most one id per cluster; as many ids as clusters iff the ids are distinct |
| `Api.DesiredIdsCollide` | src/main/java/com/spotify/autoscaler/api/DeclarativeAutoscalerController.java:93-100 | two desired clusters share an id iff deletion is not in progress and the array holds two different entries with the same clusterId |
| `Api.SameIdDifferentBounds` | src/main/java/com/spotify/autoscaler/api/DeclarativeAutoscalerController.java:96-100 | two entries with one clusterId but different settings give two desired clusters with a single id between them |
| `Api.UpsertThenDeleteConverges` | src/main/java/com/spotify/autoscaler/api/DeclarativeAutoscalerController.java:82-83 | upserting every desired cluster and then deleting the instance's other ids converges: other instances untouched, instance ids exactly the desired ids, each instance row a desired cluster |
| `Api.ConvergedRowsAreDesired` | src/main/java/com/spotify/autoscaler/api/DeclarativeAutoscalerController.java:82-83 | after convergence to a desired set with distinct ids, each desired cluster is the row stored under its key |
| `Api.KeyImageSize` | src/main/java/com/spotify/autoscaler/api/DeclarativeAutoscalerController.java:122-124 | distinct cluster ids of one instance name distinct rows |
| `Api.ConvergedInstanceSize` | src/main/java/com/spotify/autoscaler/api/DeclarativeAutoscalerController.java:146-148 | after convergence the instance holds exactly as many rows as there are desired ids |
| `Api.ConvergedListing` | src/main/java/com/spotify/autoscaler/api/DeclarativeAutoscalerController.java:146-154 | with distinct ids, the listing read back after convergence contains exactly the desired clusters, one entry per cluster |
| `Api.ReupsertIsNoOp` | src/main/java/com/spotify/autoscaler/api/DeclarativeAutoscalerController.java:82 | with distinct desired ids, upserting the desired clusters again into a converged instance leaves the table unchanged |
| `Api.SecondDeleteRemovesNothing` | src/main/java/com/spotify/autoscaler/api/DeclarativeAutoscalerController.java:82-83 | for any desired set, colliding ids included, a second reconcile after convergence gives the delete-except nothing to remove |
| `Api.ReconcileIdempotent` | src/main/java/com/spotify/autoscaler/api/DeclarativeAutoscalerController.java:82-83 | with distinct desired ids, a second reconcile with the same desired set leaves the table as the first one left it |
| `Api.DeletedAreStaleRows` | src/main/java/com/spotify/autoscaler/api/DeclarativeAutoscalerController.java:122-124 | the rows the delete-except removes are exactly the rows of the instance stored before the reconcile whose id is not desired |
| `Api.DeclarativeAutoscalerController.Reconcile` | src/main/java/com/spotify/autoscaler/api/DeclarativeAutoscalerController.java:62-86 | the database receives one upsert per desired cluster, in some order, then the one delete-except with the desired ids; the table converges to the desired set; the result is the IllegalState error (desired count, stored count) iff two desired clusters share an id; otherwise the reply echoes the object identity, lists exactly the stored instance rows, which are exactly the desired clusters, and `deleted` is whether the desired set is empty; a teardown request always succeeds with an empty status, `deleted` true and no rows left for the instance |
| `Api.DeclarativeAutoscalerController.UpsertAll` | src/main/java/com/spotify/autoscaler/api/DeclarativeAutoscalerController.java:82 | the forEach makes exactly one upsert call per desired cluster, in an unspecified order, and the table reflects those upserts |
| `Api.UpsertProgressStep` | src/main/java/com/spotify/autoscaler/api/DeclarativeAutoscalerController.java:82 | one more forEach step extends the calls, the order and the applied upserts by that cluster |
| `Api.DeclarativeAutoscalerController.DeleteAbsentClusters` | src/main/java/com/spotify/autoscaler/api/DeclarativeAutoscalerController.java:118-132 | makes one delete-except call with the desired ids; the table becomes the old table without the instance rows whose id is not among them |
| `Api.DeclarativeAutoscalerController.ReconcileResponse` | src/main/java/com/spotify/autoscaler/api/DeclarativeAutoscalerController.java:141-159 | fails with both counts, leaving the reply object untouched, iff the stored row count of the instance differs from the desired set's size; otherwise the status is the instance listing, `deleted` is whether the desired set is empty, and the reply carries the filled object |
| `Api.DeclarativeAutoscalerController.constructor` | src/main/java/com/spotify/autoscaler/api/DeclarativeAutoscalerController.java:57-60 | the controller keeps the database it is given |
| `ApiTypes.ForObject.constructor` | src/main/java/com/spotify/autoscaler/api/DeclarativeAutoscalerController.java:67-72 | the reply object carries the given apiVersion, kind, namespace and name, with no status and no deleted flag yet |
| `ApiTypes.ForObject.SetStatus` | src/main/java/com/spotify/autoscaler/api/DeclarativeAutoscalerController.java:154 | sets the status and leaves the deleted flag as it was |
| `ApiTypes.ForObject.SetDeleted` | src/main/java/com/spotify/autoscaler/api/DeclarativeAutoscalerController.java:155 | sets the deleted flag and leaves the status as it was |
| `Db.Database.ReconcileBigtableCluster` | src/main/java/com/spotify/autoscaler/api/DeclarativeAutoscalerController.java:82 | assumed upsert by key: the cluster's row is inserted or replaced, nothing else changes, rows stay stored under their own key, and the call is logged |
| `Db.UpsertIdempotent` | src/main/java/com/spotify/autoscaler/api/DeclarativeAutoscalerController.java:82 | upserting the same cluster twice leaves the same table as upserting it once |
| `Db.UpsertStep` | src/main/java/com/spotify/autoscaler/api/DeclarativeAutoscalerController.java:82 | each further upsert of the forEach extends the applied upserts by that cluster, in any order |
| `Db.Database.DeleteBigtableClustersExcept` | src/main/java/com/spotify/autoscaler/api/DeclarativeAutoscalerController.java:122-124 | assumed delete-except: removes exactly the instance rows whose id is not kept, returns how many it removed, and the call is logged |
| `Db.UpsertCallsAt` | src/main/java/com/spotify/autoscaler/api/DeclarativeAutoscalerController.java:82 | the logged upsert calls for an order are one per cluster, the j-th for the j-th cluster |
| `Db.DeletedExceptFacts` | src/main/java/com/spotify/autoscaler/api/DeclarativeAutoscalerController.java:122-124 | after delete-except a row remains iff it was there and, when in the instance, its id is kept; remaining rows are unchanged; a second call would remove nothing; the table shrinks by the count removed |
| `Db.Database.GetBigtableClusters` | src/main/java/com/spotify/autoscaler/api/DeclarativeAutoscalerController.java:146-147 | the list holds the stored row of every key of the instance, each exactly once, and nothing else |
| `Db.ListsKeysStep` | src/main/java/com/spotify/autoscaler/api/DeclarativeAutoscalerController.java:146-147 | appending the row of one more key keeps a listing exact and duplicate-free |

## Left out

- JSON decoding and encoding of the request and reply (lines 50, 65, 156-158). The request is
  taken as an already-decoded `ReconcileRequest` value. The reply is the `ReconcileResponse` value
  built from the reply object's contents, not a JSON string.
- HTTP routing, dependency injection and the not-null check on the injected database (lines 45, 57-62).
  The constructor only stores the database.
- Logging of the delete count (lines 125-131). It has no effect on state. The count is returned by
  `Db.Database.DeleteBigtableClustersExcept`, and `Api.DeletedAreStaleRows` states what it counts.
- The real `Database` implementation is not part of this model. Its three operations are modelled
  only by the contract above. The scaling-state fields it keeps for each cluster are not modelled,
  so a stored row is the cluster's configuration. Database failures are not modelled either:
  every operation succeeds.
- `Db.Database.DeleteBigtableClustersExcept` returns an unbounded count, not a 32-bit Java `int`.
- The type of the resource's cluster entries is not part of this model. An entry is taken to hold
  exactly clusterId, minNodes, maxNodes and cpuTarget, with equality over all four fields.
- `cpuTarget` is a floating-point value. It is carried as its 64-bit pattern and compared only for
  equality; no arithmetic is done on it.
- Null values: a null `deletionInProgress` flag raises `NullPointerException` in the source, and so
  does a null cluster array while deletion is not in progress. A null array during teardown behaves
  like an empty one, because the array is then never read. The model's request fields are never null,
  so a teardown request with no cluster array is modelled by an empty array.
- Upsert order: iterating a hash set has no specified order, so the model chooses the next cluster
  arbitrarily. When two desired clusters share an id, which one is stored is left unspecified;
  the model proves only that it is one of them.
- The ghost call log records only the calls that change the table. The final re-read is not
  logged; its place after the delete-except shows only in its result, which lists the table as the
  delete-except left it.
- Concurrent reconciles of one instance. The source takes no lock, and the model is sequential.
