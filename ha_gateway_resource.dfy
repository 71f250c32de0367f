/**
 * The admin endpoints that add, update and remove backends (HaGatewayResource).
 * Each one changes the backend table through the manager and keeps the metrics
 * registry in step; the response depends on the table alone.
 */
module GatewayResource {
  import opened Backends
  import opened GatewayManager
  import opened Jmx
  import opened MetricsRegistry

  /**
   * The HTTP response of a handler: 200 with an optional entity, or the 500
   * the framework sends when the handler throws.
   */
  datatype Response = HttpOk(entity: Option<BackendConfig>) | HttpServerError(error: StoreError)

  /** One step a handler takes on the table or on the registry. */
  datatype Action =
    | StoreAdd(name: string)
    | StoreUpsert(name: string)
    | StoreDelete(name: string)
    | RegistryRegister(name: string)
    | RegistryUnregister(name: string)

  class HaGatewayResource {
    const haGatewayManager: HaGatewayManager
    const backendsMetricStats: BackendsMetricStats
    /**
     * The steps the handlers have taken, in order. Each handler appends its
     * own step right after the call it records, so the order in this log is
     * the handler's program order by construction; no other state of the
     * model depends on it.
     */
    ghost var actions: seq<Action>

    ghost predicate Valid()
      reads this, haGatewayManager, backendsMetricStats, backendsMetricStats.exporter
    {
      && haGatewayManager.Valid()
      && backendsMetricStats.Valid()
      && backendsMetricStats.gatewayBackendManager == haGatewayManager
    }

    constructor (haGatewayManager: HaGatewayManager, backendsMetricStats: BackendsMetricStats)
      requires haGatewayManager.Valid() && backendsMetricStats.Valid()
      requires backendsMetricStats.gatewayBackendManager == haGatewayManager
      ensures Valid() && actions == []
      ensures this.haGatewayManager == haGatewayManager && this.backendsMetricStats == backendsMetricStats
    {
      this.haGatewayManager := haGatewayManager;
      this.backendsMetricStats := backendsMetricStats;
      actions := [];
    }

    /**
     * addBackend: store the backend, then register its metrics, and answer
     * with what the store returned. A taken name makes the store throw, so
     * nothing is registered and the framework answers 500.
     */
    method AddBackend(backend: BackendConfig) returns (response: Response)
      requires Valid()
      modifies this`actions, haGatewayManager, backendsMetricStats`statsMap,
        backendsMetricStats.exporter`exported, backendsMetricStats.exporter`calls
      ensures Valid()
      ensures response == if backend.name in Names(old(haGatewayManager.rows))
        then HttpServerError(DuplicateName(backend.name)) else HttpOk(Some(backend))
      ensures backend.name in Names(old(haGatewayManager.rows)) ==>
        && haGatewayManager.rows == old(haGatewayManager.rows)
        && backendsMetricStats.statsMap == old(backendsMetricStats.statsMap)
        && actions == old(actions) + [StoreAdd(backend.name)]
      ensures backend.name !in Names(old(haGatewayManager.rows)) ==>
        && haGatewayManager.rows == old(haGatewayManager.rows) + [StoredRow(backend)]
        && Registered(old(backendsMetricStats.statsMap), backendsMetricStats.statsMap, backend.name,
             backendsMetricStats.exporter.refused)
        && actions == old(actions) + [StoreAdd(backend.name), RegistryRegister(backend.name)]
    {
      var updatedBackend := haGatewayManager.AddBackend(backend);
      actions := actions + [StoreAdd(backend.name)];
      if updatedBackend.Err? {
        return HttpServerError(updatedBackend.error);
      }
      backendsMetricStats.RegisterBackendMetrics(backend.name);
      actions := actions + [RegistryRegister(backend.name)];
      response := HttpOk(Some(updatedBackend.value));
    }

    /**
     * updateBackend: note whether the name existed, upsert the backend, and
     * register metrics only when the name is new; the registry is untouched
     * for an existing backend. The answer is the argument itself.
     */
    method UpdateBackend(backend: BackendConfig) returns (response: Response)
      requires Valid()
      modifies this`actions, haGatewayManager, backendsMetricStats`statsMap,
        backendsMetricStats.exporter`exported, backendsMetricStats.exporter`calls
      ensures Valid()
      ensures response == HttpOk(Some(backend))
      ensures Upserted(old(haGatewayManager.rows), haGatewayManager.rows, backend)
      ensures backend.name in Names(old(haGatewayManager.rows)) ==>
        && backendsMetricStats.statsMap == old(backendsMetricStats.statsMap)
        && backendsMetricStats.exporter.calls == old(backendsMetricStats.exporter.calls)
        && actions == old(actions) + [StoreUpsert(backend.name)]
      ensures backend.name !in Names(old(haGatewayManager.rows)) ==>
        && Registered(old(backendsMetricStats.statsMap), backendsMetricStats.statsMap, backend.name,
             backendsMetricStats.exporter.refused)
        && actions == old(actions) + [StoreUpsert(backend.name), RegistryRegister(backend.name)]
    {
      ghost var before := haGatewayManager.rows;
      var existing := haGatewayManager.GetBackendByName(backend.name);
      var backendExists := existing.Some?;
      var updatedBackend := haGatewayManager.UpdateBackend(backend);
      assert Upserted(before, haGatewayManager.rows, backend);
      actions := actions + [StoreUpsert(backend.name)];
      if !backendExists {
        backendsMetricStats.RegisterBackendMetrics(updatedBackend.name);
        actions := actions + [RegistryRegister(backend.name)];
      }
      response := HttpOk(Some(updatedBackend));
    }

    /**
     * removeBackend: unregister the metrics first, then delete the row, and
     * answer 200 with no entity. Unless the unexport fails, the name is then
     * neither in the table nor in the registry.
     */
    method RemoveBackend(name: string) returns (response: Response)
      requires Valid()
      modifies this`actions, haGatewayManager, backendsMetricStats`statsMap,
        backendsMetricStats.exporter`exported, backendsMetricStats.exporter`calls
      ensures Valid()
      ensures response == HttpOk(None)
      ensures haGatewayManager.rows == DeleteWhere(old(haGatewayManager.rows), name)
      ensures name !in Names(haGatewayManager.rows)
      ensures forall n :: n != name ==> Lookup(haGatewayManager.rows, n) == Lookup(old(haGatewayManager.rows), n)
      ensures backendsMetricStats.statsMap ==
        if name in old(backendsMetricStats.statsMap) && name !in backendsMetricStats.exporter.refused
        then old(backendsMetricStats.statsMap) - {name}
        else old(backendsMetricStats.statsMap)
      ensures name !in backendsMetricStats.exporter.refused ==> name !in backendsMetricStats.statsMap
      ensures actions == old(actions) + [RegistryUnregister(name), StoreDelete(name)]
    {
      backendsMetricStats.UnregisterBackendMetrics(name);
      actions := actions + [RegistryUnregister(name)];
      haGatewayManager.DeleteBackend(name);
      actions := actions + [StoreDelete(name)];
      response := HttpOk(None);
    }
  }
}
