# Trino Gateway backend metrics registry, in Dafny

This project models the part of Trino Gateway that keeps one JMX metric object
per backend cluster, and the backend table that object reports on.

- **Backend table** (`backends.dfy`, module `Backends`). It stands in for the
  JDBI DAO. It is a sequence of rows keyed by a unique name. It supports these
  queries: all, active, active in a routing group, and by name. It supports
  these changes: create (refused for a taken name), update by name, and
  delete by name.
- **Backend manager** (`ha_gateway_manager.dfy`, module `GatewayManager`).
  This is `HaGatewayManager`: upsert, delete, activate and deactivate over
  the table. It also holds `removeTrailingSlash`, written with the full
  meaning of Java's `$` anchor, and `upcast`, the row-to-configuration copy.
- **Per-cluster metric** (`cluster_metric_stats.dfy`). This is
  `BackendClusterMetricStats`. Its status is 1 for active, 0 for inactive and
  -1 for unknown. It is derived from the table each time it is read.
  `getClusterName` is the `clusterName` constant.
- **Activation gauges** (`cluster_activation_stats.dfy`). One gauge per
  backend.
- **JMX exporter** (`mbean_exporter.dfy`). It tracks which cluster names are
  exported. An export or unexport of a name in the `refused` set throws.
  These calls stand for every failure of the MBean server.
- **Registry** (`backends_metric_stats.dfy`, module `MetricsRegistry`). This
  is `BackendsMetricStats`. It holds the `statsMap` map from cluster name to
  metric object. `updateMetrics` reconciles that map with the table.
  `registerBackendMetrics` rolls back when the export fails. The class
  invariant is that the map is exactly what the exporter has exported, and
  that every entry is keyed by its own cluster name.
- **Admin endpoints** (`ha_gateway_resource.dfy`). This is
  `HaGatewayResource`: add, update and remove. Each changes the table and
  keeps the registry in step.

Every `synchronized` method is one atomic step. The reconciliation pass is
described by `ReconciledKeys`, a function of the keys registered before the
pass, the current backend names and the refused names. The pass keeps every
name that is both registered and current. It keeps a stale name exactly when
its unexport fails. It adds a new name exactly when its export succeeds. It
converges on the current backends once nothing is refused. A second pass
against the same backends and the same failures changes nothing more.

Three places where the code does something its names and comments do not
suggest; the model follows the code:

- `removeTrailingSlash` is `replaceAll("/$", "")`. It also removes a slash
  that stands just before a final line terminator. It never removes more
  than one slash.
- `addBackend` returns its argument, not the normalised copy that it stores.
- `updateMetrics` removes entries from the map while it iterates the map's
  own key set. This is the finding below. The main model iterates a
  snapshot, which is the evident intent.

## Model

| member | source | states |
|---|---|---|
| Backends.Lookup | gateway-ha/src/main/java/io/trino/gateway/ha/router/HaGatewayManager.java:133 | findFirstByName: a found row is in the table and has the name; nothing is found exactly when no row has the name |
| Backends.LookupAt | gateway-ha/src/main/java/io/trino/gateway/ha/router/HaGatewayManager.java:133 | with unique names, looking up the name of the row at any position finds that row |
| Backends.LookupRows | gateway-ha/src/main/java/io/trino/gateway/ha/router/HaGatewayManager.java:133 | with unique names, every row is what a lookup of its own name returns |
| Backends.Select | gateway-ha/src/main/java/io/trino/gateway/ha/router/HaGatewayManager.java:50-89 | a query returns no more rows than the table, and a row is returned exactly when it is in the table and matches the query |
| Backends.SelectAll | gateway-ha/src/main/java/io/trino/gateway/ha/router/HaGatewayManager.java:51-55 | findAll returns the whole table |
| Backends.SelectNamed | gateway-ha/src/main/java/io/trino/gateway/ha/router/HaGatewayManager.java:85-89 | with unique names, findByName returns exactly the one row with that name, or nothing |
| Backends.UpdateWhere | gateway-ha/src/main/java/io/trino/gateway/ha/router/HaGatewayManager.java:142 | an update keeps the table's size and patches exactly the rows with the given name |
| Backends.DeleteWhere | gateway-ha/src/main/java/io/trino/gateway/ha/router/HaGatewayManager.java:151-154 | deleteByName keeps exactly the rows whose name differs |
| Backends.Insert | gateway-ha/src/main/java/io/trino/gateway/ha/router/HaGatewayManager.java:118 | create succeeds exactly when the name is free, and then appends the row; otherwise it fails with a duplicate-name error |
| Backends.InsertLookup | gateway-ha/src/main/java/io/trino/gateway/ha/router/HaGatewayManager.java:118 | create with a free name succeeds, keeps names unique, adds exactly the new name, and changes no other name's row |
| Backends.UpdateWhereNames | gateway-ha/src/main/java/io/trino/gateway/ha/router/HaGatewayManager.java:142 | an update never changes the set of names, and it keeps them unique |
| Backends.UpdateWhereLookup | gateway-ha/src/main/java/io/trino/gateway/ha/router/HaGatewayManager.java:142 | after an update, the named row is the patched row and every other name keeps its row |
| Backends.DeleteWhereNames | gateway-ha/src/main/java/io/trino/gateway/ha/router/HaGatewayManager.java:151-154 | a delete keeps names unique, removes exactly that name, and shrinks the table by one exactly when the name was present |
| Backends.DeleteWhereUnique | gateway-ha/src/main/java/io/trino/gateway/ha/router/HaGatewayManager.java:153 | a delete keeps names unique |
| Backends.DeleteWhereCount | gateway-ha/src/main/java/io/trino/gateway/ha/router/HaGatewayManager.java:153 | with unique names, a delete removes one row if the name is present and none otherwise |
| Backends.DeleteWhereNameSet | gateway-ha/src/main/java/io/trino/gateway/ha/router/HaGatewayManager.java:153 | the names left after a delete are the old names without the deleted one |
| Backends.DeleteWhereLookup | gateway-ha/src/main/java/io/trino/gateway/ha/router/HaGatewayManager.java:151-154 | after a delete the name finds nothing, and every other name keeps its row |
| GatewayManager.RemoveTrailingSlash | gateway-ha/src/main/java/io/trino/gateway/ha/router/HaGatewayManager.java:171-174 | where "/$" matches, exactly that one slash is removed; where it does not match, the url is unchanged |
| GatewayManager.SlashMatchUnique | gateway-ha/src/main/java/io/trino/gateway/ha/router/HaGatewayManager.java:173 | "/$" can match only in the last three characters, and at most once |
| GatewayManager.RemoveTrailingSlashPlain | gateway-ha/src/main/java/io/trino/gateway/ha/router/HaGatewayManager.java:171-174 | on a url without line terminators, exactly one final slash is removed if there is one, and otherwise the url is unchanged |
| GatewayManager.RemoveTrailingSlashRemovesOne | gateway-ha/src/main/java/io/trino/gateway/ha/router/HaGatewayManager.java:171-174 | "a//" becomes "a/" |
| GatewayManager.RemoveTrailingSlashTestUrls | gateway-ha/src/test/java/io/trino/gateway/ha/router/TestHaGatewayManager.java:94-103 | the test's https url loses its final slash; the url without one is unchanged |
| GatewayManager.RemoveTrailingSlashBeforeNewline | gateway-ha/src/main/java/io/trino/gateway/ha/router/HaGatewayManager.java:173 | a slash just before a final newline is removed, because `$` matches there too |
| GatewayManager.Upcast | gateway-ha/src/main/java/io/trino/gateway/ha/router/HaGatewayManager.java:156-169 | one configuration per row, in order, and each copies every field of its row |
| GatewayManager.UpcastMembers | gateway-ha/src/main/java/io/trino/gateway/ha/router/HaGatewayManager.java:156-169 | the upcast list holds exactly the configurations of the rows |
| GatewayManager.ManagerTestTables | gateway-ha/src/test/java/io/trino/gateway/ha/router/TestHaGatewayManager.java:42-89 | in the test's sequence, upserting a new name appends a row, upserting an existing name overwrites it in place, and the delete leaves only the other row |
| GatewayManager.ManagerTestSequence | gateway-ha/src/test/java/io/trino/gateway/ha/router/TestHaGatewayManager.java:42-89 | in the test's sequence, each listing has the size the test expects, and the groups the test expects as a multiset |
| GatewayManager.HaGatewayManager.constructor | gateway-ha/src/main/java/io/trino/gateway/ha/router/HaGatewayManager.java:38-41 | the manager works on the given table, which has unique names |
| GatewayManager.HaGatewayManager.GetAllBackends | gateway-ha/src/main/java/io/trino/gateway/ha/router/HaGatewayManager.java:50-55 | the upcast of the whole table |
| GatewayManager.HaGatewayManager.GetAllActiveBackends | gateway-ha/src/main/java/io/trino/gateway/ha/router/HaGatewayManager.java:57-62 | the upcast of the active rows: every result is active, and every active row is in the result |
| GatewayManager.HaGatewayManager.GetActiveAdhocBackends | gateway-ha/src/main/java/io/trino/gateway/ha/router/HaGatewayManager.java:64-75 | the active rows of group "adhoc"; the empty list when the query throws |
| GatewayManager.HaGatewayManager.GetActiveBackends | gateway-ha/src/main/java/io/trino/gateway/ha/router/HaGatewayManager.java:77-82 | exactly the active rows of that routing group: each result is one, and each one is a result |
| GatewayManager.HaGatewayManager.GetBackendByName | gateway-ha/src/main/java/io/trino/gateway/ha/router/HaGatewayManager.java:84-89 | present exactly when a row has that name, and then that row's configuration |
| GatewayManager.HaGatewayManager.DeactivateBackend | gateway-ha/src/main/java/io/trino/gateway/ha/router/HaGatewayManager.java:91-99 | a missing name fails with the table unchanged; otherwise only that backend's active flag is cleared, and no name appears or disappears |
| GatewayManager.HaGatewayManager.ActivateBackend | gateway-ha/src/main/java/io/trino/gateway/ha/router/HaGatewayManager.java:101-109 | a missing name fails with the table unchanged; otherwise only that backend's active flag is set, and no name appears or disappears |
| GatewayManager.HaGatewayManager.AddBackend | gateway-ha/src/main/java/io/trino/gateway/ha/router/HaGatewayManager.java:111-124 | a taken name fails with the table unchanged; otherwise the row with both urls normalised is appended, and the argument itself is returned |
| GatewayManager.HaGatewayManager.UpdateBackend | gateway-ha/src/main/java/io/trino/gateway/ha/router/HaGatewayManager.java:126-149 | an upsert: a new name grows the table by one, an existing name is overwritten in place; the name then maps to the normalised row, other names are untouched, and the argument is returned |
| GatewayManager.HaGatewayManager.DeleteBackend | gateway-ha/src/main/java/io/trino/gateway/ha/router/HaGatewayManager.java:151-154 | only the row with that name goes; the size drops by one exactly when it was present |
| ClusterMetrics.BackendClusterMetricStats.constructor | gateway-ha/src/main/java/io/trino/gateway/ha/clustermonitor/BackendClusterMetricStats.java:24-28 | the metric keeps its cluster name and its manager |
| ClusterMetrics.BackendClusterMetricStats.GetActivationStatus | gateway-ha/src/main/java/io/trino/gateway/ha/clustermonitor/BackendClusterMetricStats.java:35-41 | 1 exactly when an active backend has the name, 0 exactly when an inactive one does, -1 exactly when none does |
| ClusterMetrics.DeactivationShowsOnNextRead | gateway-ha/src/main/java/io/trino/gateway/ha/clustermonitor/BackendClusterMetricStats.java:38-40 | the status is derived on read: right after a deactivation the metric reads 0 |
| ClusterMetrics.ActivationShowsOnNextRead | gateway-ha/src/main/java/io/trino/gateway/ha/clustermonitor/BackendClusterMetricStats.java:38-40 | the status is derived on read: right after an activation the metric reads 1 |
| ActivationStats.ClusterActivationStats.constructor | gateway-ha/src/main/java/io/trino/gateway/ha/clustermonitor/ClusterActivationStats.java:31-35 | the gauges read the given manager |
| ActivationStats.ClusterActivationStats.GetClusterActivationStatuses | gateway-ha/src/main/java/io/trino/gateway/ha/clustermonitor/ClusterActivationStats.java:37-50 | one gauge per backend, in order, named with the ".activation.status" suffix, valued 1 when active and 0 when not |
| ActivationStats.GaugeAgreesWithMetric | gateway-ha/src/main/java/io/trino/gateway/ha/clustermonitor/ClusterActivationStats.java:43-46 | every backend's gauge value equals what its per-cluster metric reads |
| Jmx.MBeanExporter.constructor | gateway-ha/src/main/java/io/trino/gateway/ha/clustermonitor/BackendsMetricStats.java:43 | the exporter starts with nothing exported and no calls made |
| Jmx.MBeanExporter.ExportWithGeneratedName | gateway-ha/src/main/java/io/trino/gateway/ha/clustermonitor/BackendsMetricStats.java:114 | succeeds exactly when the name is neither exported nor refused, and only then publishes the object |
| Jmx.MBeanExporter.UnexportWithGeneratedName | gateway-ha/src/main/java/io/trino/gateway/ha/clustermonitor/BackendsMetricStats.java:90 | succeeds exactly when the name is exported and not refused, and only then withdraws it |
| MetricsRegistry.UpcastNames | gateway-ha/src/main/java/io/trino/gateway/ha/clustermonitor/BackendsMetricStats.java:82-84 | the names collected from getAllBackends are exactly the table's names |
| MetricsRegistry.ReconciledKeys | gateway-ha/src/main/java/io/trino/gateway/ha/clustermonitor/BackendsMetricStats.java:82-105 | the keys after a pass include every name both registered and current and lie within old keys plus current names; a stale name stays exactly when refused, and a new name is added exactly when not refused |
| MetricsRegistry.ReconcileIsIdempotent | gateway-ha/src/main/java/io/trino/gateway/ha/clustermonitor/BackendsMetricStats.java:79-106 | a second pass against the same backends and failures leaves the same keys |
| MetricsRegistry.ReconcileReachesCurrent | gateway-ha/src/main/java/io/trino/gateway/ha/clustermonitor/BackendsMetricStats.java:82-105 | the keys after a pass are exactly the current backend names if and only if no stale or new name is refused |
| MetricsRegistry.PassKeys | gateway-ha/src/main/java/io/trino/gateway/ha/clustermonitor/BackendsMetricStats.java:86-105 | the removal loop followed by the registration loop leaves the reconciled keys |
| MetricsRegistry.PassCallsJoin | gateway-ha/src/main/java/io/trino/gateway/ha/clustermonitor/BackendsMetricStats.java:86-105 | the calls of the two loops make up one pass, with no call repeated and one call per changed name: unexports of stale names, then exports of new names, and nothing for the others |
| MetricsRegistry.BackendsMetricStats.constructor | gateway-ha/src/main/java/io/trino/gateway/ha/clustermonitor/BackendsMetricStats.java:47-56 | the registry starts empty, in step with an exporter that has exported nothing |
| MetricsRegistry.BackendsMetricStats.RegisterBackendMetrics | gateway-ha/src/main/java/io/trino/gateway/ha/clustermonitor/BackendsMetricStats.java:108-122 | a registered name: map unchanged and no export; a refused export: map as before the call; otherwise exactly one fresh entry for the name; the invariant is kept |
| MetricsRegistry.BackendsMetricStats.UnregisterBackendMetrics | gateway-ha/src/main/java/io/trino/gateway/ha/clustermonitor/BackendsMetricStats.java:88-96 | the unexport comes first; the entry goes only when it succeeds; an unregistered name sees no call |
| MetricsRegistry.BackendsMetricStats.UpdateMetrics | gateway-ha/src/main/java/io/trino/gateway/ha/clustermonitor/BackendsMetricStats.java:79-106 | the keys become the reconciled keys; kept entries are the same objects and added ones are fresh; the calls made are one unexport per stale name, then one export per new name, none repeated, so their number is the number of stale names plus new names |
| MetricsRegistry.BackendsMetricStats.UnregisterRemovedBackends | gateway-ha/src/main/java/io/trino/gateway/ha/clustermonitor/BackendsMetricStats.java:86-98 | every stale name is unexported, no unexport is repeated, and a name is removed exactly when its unexport succeeds; other entries are untouched |
| MetricsRegistry.BackendsMetricStats.RegisterAddedBackends | gateway-ha/src/main/java/io/trino/gateway/ha/clustermonitor/BackendsMetricStats.java:100-105 | every current name not registered is exported, no export is repeated, and a name is added exactly when its export succeeds; existing entries are untouched |
| MetricsRegistry.BackendsMetricStats.RefreshPass | gateway-ha/src/main/java/io/trino/gateway/ha/clustermonitor/BackendsMetricStats.java:63-70 | a pass that throws at the table read leaves the registry as it was; otherwise the keys become the reconciled keys |
| MetricsRegistry.RemovalLoopAsWritten | gateway-ha/src/main/java/io/trino/gateway/ha/clustermonitor/BackendsMetricStats.java:87-98 | the removal loop over the live key set removes only the first name in visit order that is neither current nor refused, keeps every registered current name, and throws exactly when that removal is not of the last name visited |
| MetricsRegistry.FirstRemoval | gateway-ha/src/main/java/io/trino/gateway/ha/clustermonitor/BackendsMetricStats.java:87-92 | the index of the first visited name that is neither current nor refused: every earlier name is current or refused, and the index is the length when there is none |
| MetricsRegistry.UpdateMetricsAsWritten | gateway-ha/src/main/java/io/trino/gateway/ha/clustermonitor/BackendsMetricStats.java:79-106 | the pass as written still keeps every name both registered and current, and stays within old keys plus current names |
| MetricsRegistry.AsWrittenKeepsStale | gateway-ha/src/main/java/io/trino/gateway/ha/clustermonitor/BackendsMetricStats.java:87-98 | for any order visiting each registered name once, two stale names whose unexports succeed make the pass as written differ from the reconciled keys: one of them stays registered |
| MetricsRegistry.PassCallsCount | gateway-ha/src/main/java/io/trino/gateway/ha/clustermonitor/BackendsMetricStats.java:86-105 | a pass issues exactly as many exporter calls as there are stale names plus new names |
| MetricsRegistry.AsWrittenAbortsPass | gateway-ha/src/main/java/io/trino/gateway/ha/clustermonitor/BackendsMetricStats.java:87-92 | with {a, b} registered and only c current, the pass as written leaves {b}; the intended pass leaves {c} |
| GatewayResource.HaGatewayResource.constructor | gateway-ha/src/main/java/io/trino/gateway/ha/resource/HaGatewayResource.java:40-45 | the endpoints use the given manager and a registry that reads that manager |
| GatewayResource.HaGatewayResource.AddBackend | gateway-ha/src/main/java/io/trino/gateway/ha/resource/HaGatewayResource.java:47-55 | the store add comes first, then the register; a taken name answers 500 and registers nothing; the response depends on the table alone |
| GatewayResource.HaGatewayResource.UpdateBackend | gateway-ha/src/main/java/io/trino/gateway/ha/resource/HaGatewayResource.java:57-68 | the upsert always happens; metrics are registered only for a name that did not exist before, and otherwise the registry and exporter are untouched; the answer is the argument |
| GatewayResource.HaGatewayResource.RemoveBackend | gateway-ha/src/main/java/io/trino/gateway/ha/resource/HaGatewayResource.java:70-78 | unregister comes before delete; the name leaves the table, and it leaves the registry unless its unexport is refused; the answer is 200 with no entity |

## Left out

- Scheduling: `start` and `stop` (BackendsMetricStats.java:58-77), the refresh period and `MonitorConfiguration` are timing and thread management. `RefreshPass` models one run of the scheduled task with its catch.
- Concurrency: each `synchronized` method is one atomic step, and each endpoint runs from start to end without interleaving. The endpoints are not synchronized. A refresh pass that runs between `removeBackend`'s unregister and its delete re-registers the name until the next pass. The model does not capture that interleaving.
- The MBean server: the exporter is reduced to the names it holds and a set of names it refuses. Weak references, object names and the `BackendClusterMetricStats.class` argument are not modelled.
- The JDBI DAO and SQL: the DAO source is not part of this model. The table is a sequence with a unique name per row. A create on a taken name fails as a primary-key violation would. A failure of any other query is modelled only for `getActiveAdhocBackends`, which has a catch, and for the table read that starts `updateMetrics`.
- Listing order: SQL promises no order, and the model lists rows in table order with updates in place. The test's exact-order assertions (TestHaGatewayManager.java:69-71, :80-82) are compared as multisets in `ManagerTestSequence`.
- The activation-stats hook: `setClusterActivationStats` and the null-guarded `initActivationStatusMetricByCluster` calls (HaGatewayManager.java:43-48, :119-122, :136-146) are left out. `ClusterActivationStats` has no such method.
- `registerBackendMetrics(ProxyBackendConfiguration)` and `unregisterBackendMetrics` are called by HaGatewayResource.java:52, :64 and :74, but the registry defines neither. Register is modelled by the backend's name. Unregister is modelled as the single-name form of the removal branch at BackendsMetricStats.java:88-96.
- `refreshOnJmxAccess`, called by JmxRequestInterceptor.java:41, is not defined in the registry, so it is not modelled.
- Logging, `System.out`, JAX-RS annotations, role checks and JSON encoding are left out. So are the two null fields of `Gauge`.
- GatewayManager.HaGatewayManager.DeactivateBackend: the null dereference on a missing name is modelled as the `Failed(NoSuchBackend)` outcome, with the table unchanged.
- GatewayManager.HaGatewayManager.ActivateBackend: the missing-name case is modelled the same way as in DeactivateBackend.
- GatewayResource.HaGatewayResource.AddBackend: the exception from a duplicate create is modelled as the 500 response it becomes.
- MetricsRegistry.BackendsMetricStats.UpdateMetrics: it iterates a snapshot of the key set. The live-key-set iteration is modelled separately by UpdateMetricsAsWritten.

## Findings

| source | as written | input that shows it | evidently intended | confidence | as-written member | corrected member |
|---|---|---|---|---|---|---|
| gateway-ha/src/main/java/io/trino/gateway/ha/clustermonitor/BackendsMetricStats.java:87-92 | `statsMap.remove` inside a for-each over `statsMap.keySet()` of a `HashMap`; the next iterator step throws `ConcurrentModificationException`, which the scheduler's catch absorbs, so the rest of the removal loop and all of the registration loop are skipped | keys {a, b} visited a first, current backends {c}, no export failures: the pass leaves {b} and never registers c | iterate a copy of the key set, so every stale name is unexported and removed and every new name is registered in the same pass | likely; not executed | MetricsRegistry.AsWrittenAbortsPass | MetricsRegistry.BackendsMetricStats.UpdateMetrics |
