/**
 * The per-cluster metric object (BackendClusterMetricStats) that the registry
 * exports. Its cluster name is fixed when it is built; its activation status is
 * read from the live backend table on every read, never cached.
 */
module ClusterMetrics {
  import opened Backends
  import opened GatewayManager

  class BackendClusterMetricStats {
    const clusterName: string
    const gatewayBackendManager: HaGatewayManager

    /** getClusterName returns the constant field clusterName: the constructor argument, for the object's whole life. */
    constructor (clusterName: string, gatewayBackendManager: HaGatewayManager)
      ensures this.clusterName == clusterName
      ensures this.gatewayBackendManager == gatewayBackendManager
    {
      this.clusterName := clusterName;
      this.gatewayBackendManager := gatewayBackendManager;
    }

    /**
     * getActivationStatus: 1 if the backend with this name is active, 0 if it
     * exists and is inactive, -1 if no backend has this name.
     */
    function GetActivationStatus(): (status: int)
      reads gatewayBackendManager
      requires gatewayBackendManager.Valid()
      ensures status == 1 || status == 0 || status == -1
      ensures status == 1 <==> exists row :: row in gatewayBackendManager.rows && row.name == clusterName && row.active
      ensures status == 0 <==> exists row :: row in gatewayBackendManager.rows && row.name == clusterName && !row.active
      ensures status == -1 <==> clusterName !in Names(gatewayBackendManager.rows)
    {
      LookupRows(gatewayBackendManager.rows);
      match Lookup(gatewayBackendManager.rows, clusterName)
      case Some(backend) => if backend.active then 1 else 0
      case None => -1
    }
  }

  /**
   * The status is derived on read: deactivating a registered backend makes the
   * next read of its metric object report 0, with no re-registration.
   */
  method DeactivationShowsOnNextRead(stats: BackendClusterMetricStats)
    requires stats.gatewayBackendManager.Valid()
    requires stats.clusterName in Names(stats.gatewayBackendManager.rows)
    modifies stats.gatewayBackendManager
    ensures stats.gatewayBackendManager.Valid()
    ensures stats.GetActivationStatus() == 0
  {
    var outcome := stats.gatewayBackendManager.DeactivateBackend(stats.clusterName);
  }

  /** Likewise, activating it makes the next read report 1. */
  method ActivationShowsOnNextRead(stats: BackendClusterMetricStats)
    requires stats.gatewayBackendManager.Valid()
    requires stats.clusterName in Names(stats.gatewayBackendManager.rows)
    modifies stats.gatewayBackendManager
    ensures stats.gatewayBackendManager.Valid()
    ensures stats.GetActivationStatus() == 1
  {
    var outcome := stats.gatewayBackendManager.ActivateBackend(stats.clusterName);
  }
}
