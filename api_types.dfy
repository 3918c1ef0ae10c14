/**
 * The already-decoded reconcile request and the reply envelope. The request is the
 * BigtableAutoscaler custom resource plus the deletion flag; the reply echoes the
 * resource's identity in a ForObject that the controller fills in place.
 */
module ApiTypes {
  import opened Wrappers
  import opened Db

  /** One entry of the resource's `spec.cluster` array. */
  datatype ClusterSpec = ClusterSpec(
    clusterId: string,
    minNodes: int32,
    maxNodes: int32,
    cpuTarget: CpuTarget)

  datatype Metadata = Metadata(namespace: string, name: string)

  datatype AutoscalerSpec = AutoscalerSpec(instanceId: string, cluster: seq<ClusterSpec>)

  datatype BigtableAutoscaler = BigtableAutoscaler(
    apiVersion: string,
    kind: string,
    metadata: Metadata,
    spec: AutoscalerSpec)

  datatype ReconcileRequest = ReconcileRequest(forObject: BigtableAutoscaler, deletionInProgress: bool)

  datatype Status = Status(clusters: seq<BigtableCluster>)

  /** The reply's view of the reconciled object: its identity, status and deleted flag. */
  datatype ForObjectValue = ForObjectValue(
    apiVersion: string,
    kind: string,
    namespace: string,
    name: string,
    status: Option<Status>,
    deleted: Option<bool>)

  datatype EnsureResources = EnsureResources(forObject: ForObjectValue)

  datatype ReconcileResponse = ReconcileResponse(ensure: EnsureResources)

  /** The error the consistency check raises: desired and stored cluster counts. */
  datatype ReconcileError = IllegalState(desiredCount: nat, storedCount: nat)

  /** The reply object: identity fixed at construction, status and deleted set later. */
  class ForObject {
    const apiVersion: string
    const kind: string
    const namespace: string
    const name: string
    var status: Option<Status>
    var deleted: Option<bool>

    constructor (apiVersion: string, kind: string, namespace: string, name: string)
      ensures this.apiVersion == apiVersion && this.kind == kind
      ensures this.namespace == namespace && this.name == name
      ensures status == None && deleted == None
    {
      this.apiVersion := apiVersion;
      this.kind := kind;
      this.namespace := namespace;
      this.name := name;
      status := None;
      deleted := None;
    }

    method SetStatus(s: Status)
      modifies this
      ensures status == Some(s) && deleted == old(deleted)
    {
      status := Some(s);
    }

    method SetDeleted(d: bool)
      modifies this
      ensures deleted == Some(d) && status == old(status)
    {
      deleted := Some(d);
    }

    /** The object's current contents, as they are put into the reply. */
    function Value(): ForObjectValue
      reads this
    {
      ForObjectValue(apiVersion, kind, namespace, name, status, deleted)
    }
  }
}
