/**
 * ClusterActivationStats: one activation gauge per backend, computed from the
 * backend list on every call.
 */
module ActivationStats {
  import opened Backends
  import opened GatewayManager
  import opened ClusterMetrics

  /** An openmetrics gauge, reduced to its name and value. */
  datatype Gauge = Gauge(name: string, value: int)

  /** What follows the cluster name in a gauge's name. */
  const ActivationStatusSuffix: string := ".activation.status"

  class ClusterActivationStats {
    const gatewayBackendManager: HaGatewayManager

    constructor (gatewayBackendManager: HaGatewayManager)
      ensures this.gatewayBackendManager == gatewayBackendManager
    {
      this.gatewayBackendManager := gatewayBackendManager;
    }

    /**
     * getClusterActivationStatuses: one gauge per backend, in the order of
     * getAllBackends, named after the backend and valued 1 when it is active
     * and 0 otherwise.
     */
    method GetClusterActivationStatuses() returns (gauges: seq<Gauge>)
      ensures |gauges| == |gatewayBackendManager.rows|
      ensures forall i :: 0 <= i < |gauges| ==>
        && gauges[i].name == gatewayBackendManager.rows[i].name + ActivationStatusSuffix
        && gauges[i].value == (if gatewayBackendManager.rows[i].active then 1 else 0)
      ensures forall g :: g in gauges ==> g.value == 0 || g.value == 1
    {
      gauges := [];
      var backends := gatewayBackendManager.GetAllBackends();
      for i := 0 to |backends|
        invariant |gauges| == i
        invariant forall k :: 0 <= k < i ==>
          gauges[k] == Gauge(backends[k].name + ActivationStatusSuffix, if backends[k].active then 1 else 0)
      {
        var backend := backends[i];
        var clusterId := backend.name;
        var status := if backend.active then 1 else 0;
        gauges := gauges + [Gauge(clusterId + ActivationStatusSuffix, status)];
      }
    }
  }

  /**
   * The gauge of a listed backend carries the same value as that backend's
   * metric object reports; a listed backend is never reported as -1.
   */
  lemma GaugeAgreesWithMetric(manager: HaGatewayManager, i: nat, stats: BackendClusterMetricStats)
    requires manager.Valid()
    requires i < |manager.rows|
    requires stats.gatewayBackendManager == manager && stats.clusterName == manager.rows[i].name
    ensures stats.GetActivationStatus() == if manager.rows[i].active then 1 else 0
  {
    LookupAt(manager.rows, i);
  }
}
