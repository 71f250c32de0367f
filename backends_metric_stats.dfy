/**
 * The backend metrics registry (BackendsMetricStats): a map from cluster name
 * to the metric object exported for it, kept in step with the backend table by
 * a reconciliation pass (updateMetrics) and by single-name registration and
 * unregistration.
 *
 * Each synchronized method is one atomic step. The registry's invariant is
 * that its map is exactly what the exporter has exported: no metric object is
 * exported without being tracked, and none is tracked without being exported.
 */
module MetricsRegistry {
  import opened Backends
  import opened GatewayManager
  import opened ClusterMetrics
  import opened Jmx

  /** The cluster names of a list of backends. */
  function ConfigNames(backends: seq<BackendConfig>): set<string>
  {
    set b | b in backends :: b.name
  }

  /** The names of the configurations upcast from a table are the table's names. */
  lemma UpcastNames(backends: seq<BackendConfig>, rows: seq<GatewayBackend>)
    requires IsUpcast(backends, rows)
    ensures ConfigNames(backends) == Names(rows)
  {
    forall n | n in ConfigNames(backends) ensures n in Names(rows) {
      var b :| b in backends && b.name == n;
      var i :| 0 <= i < |backends| && backends[i] == b;
      assert rows[i] in rows;
    }
    forall n | n in Names(rows) ensures n in ConfigNames(backends) {
      var row :| row in rows && row.name == n;
      var i :| 0 <= i < |rows| && rows[i] == row;
      assert backends[i] in backends;
    }
  }

  /**
   * The registered names one reconciliation pass leaves, given the names
   * registered before it, the current backend names and the names whose export
   * or unexport fails: the names both registered and current, the stale names
   * whose unexport failed, and the new names whose export succeeded.
   */
  function ReconciledKeys(registered: set<string>, current: set<string>, refused: set<string>): (keys: set<string>)
    ensures registered * current <= keys <= registered + current
    ensures forall k :: k in registered && k !in current ==> (k in keys <==> k in refused)
    ensures forall k :: k in current && k !in registered ==> (k in keys <==> k !in refused)
  {
    (registered * current) + ((registered - current) * refused) + ((current - registered) - refused)
  }

  /** A second pass against the same backends and the same failures changes nothing more. */
  lemma ReconcileIsIdempotent(registered: set<string>, current: set<string>, refused: set<string>)
    ensures ReconciledKeys(ReconciledKeys(registered, current, refused), current, refused)
      == ReconciledKeys(registered, current, refused)
  {
  }

  /**
   * A pass leaves exactly the current backends if and only if no stale or new
   * name is refused; in particular, once the failures stop, the next pass
   * converges on the current backends whatever came before.
   */
  lemma ReconcileReachesCurrent(registered: set<string>, current: set<string>, refused: set<string>)
    ensures ReconciledKeys(registered, current, refused) == current
        <==> refused * ((registered - current) + (current - registered)) == {}
  {
    var keys := ReconciledKeys(registered, current, refused);
    if refused * ((registered - current) + (current - registered)) != {} {
      var k :| k in refused * ((registered - current) + (current - registered));
      assert k in keys <==> k !in current;
    } else {
      forall k ensures k in keys <==> k in current {
        assert k !in refused * ((registered - current) + (current - registered));
      }
    }
  }

  /** The names the two loops of a pass leave, stage by stage, are the reconciled names. */
  lemma PassKeys(registered: set<string>, current: set<string>, refused: set<string>, kept: set<string>, final: set<string>)
    requires kept == registered - ((registered - current) - refused)
    requires final == kept + ((current - kept) - refused)
    ensures final == ReconciledKeys(registered, current, refused)
    ensures forall k :: k in current ==> (k in kept <==> k in registered)
  {
  }

  /** What register leaves in the map: the map as before, or the map with one fresh entry for the new name. */
  ghost predicate Registered(
    before: map<string, BackendClusterMetricStats>, after: map<string, BackendClusterMetricStats>,
    name: string, refused: set<string>)
  {
    if name in before || name in refused then after == before
    else name in after && after == before[name := after[name]]
  }

  /**
   * The exporter calls one pass issues: an unexport for every stale name, an
   * export for every new name, the unexports first, no call issued twice, and
   * no call at all for a name that is both registered and current.
   */
  ghost predicate PassCalls(issued: seq<ExporterCall>, registered: set<string>, current: set<string>)
  {
    && (forall c :: c in issued ==>
          (c.Unexport? && c.name in registered && c.name !in current)
          || (c.Export? && c.name in current && c.name !in registered))
    && (forall k :: k in registered && k !in current ==> Unexport(k) in issued)
    && (forall k :: k in current && k !in registered ==> Export(k) in issued)
    && (forall i, j :: 0 <= i < j < |issued| && issued[i].Export? ==> issued[j].Export?)
    && Distinct(issued)
  }

  /** No call occurs twice in the sequence. */
  ghost predicate Distinct(calls: seq<ExporterCall>)
  {
    forall i, j :: 0 <= i < j < |calls| ==> calls[i] != calls[j]
  }

  /** Appending a call not yet made keeps the calls distinct. */
  lemma AppendDistinct(calls: seq<ExporterCall>, c: ExporterCall)
    requires Distinct(calls) && c !in calls
    ensures Distinct(calls + [c])
  {
    var grown := calls + [c];
    forall i, j | 0 <= i < j < |grown| ensures grown[i] != grown[j] {
      assert grown[i] == calls[i];
      if j < |calls| {
        assert grown[j] == calls[j];
      }
    }
  }

  class BackendsMetricStats {
    const gatewayBackendManager: HaGatewayManager
    const exporter: MBeanExporter
    /** The registered metric objects by cluster name; it keeps each exported object reachable. */
    var statsMap: map<string, BackendClusterMetricStats>

    ghost predicate Valid()
      reads this, exporter
    {
      && statsMap == exporter.exported
      && forall k :: k in statsMap ==>
           statsMap[k].clusterName == k && statsMap[k].gatewayBackendManager == gatewayBackendManager
    }

    constructor (gatewayBackendManager: HaGatewayManager, exporter: MBeanExporter)
      requires exporter.exported == map[]
      ensures Valid() && statsMap == map[]
      ensures this.gatewayBackendManager == gatewayBackendManager && this.exporter == exporter
    {
      this.gatewayBackendManager := gatewayBackendManager;
      this.exporter := exporter;
      statsMap := map[];
    }

    /**
     * registerBackendMetrics: a name already registered is left alone and
     * nothing is exported. Otherwise a new metric object is put in the map and
     * exported; if the export throws, the entry is taken out again, so the map
     * is as it was before the call.
     */
    method RegisterBackendMetrics(clusterName: string)
      requires Valid()
      modifies this`statsMap, exporter`exported, exporter`calls
      ensures Valid()
      ensures Registered(old(statsMap), statsMap, clusterName, exporter.refused)
      ensures clusterName in statsMap && clusterName !in old(statsMap) ==> fresh(statsMap[clusterName])
      ensures exporter.calls == old(exporter.calls) + (if clusterName in old(statsMap) then [] else [Export(clusterName)])
    {
      var stats := new BackendClusterMetricStats(clusterName, gatewayBackendManager);
      // putIfAbsent: insert only when there was no entry
      if clusterName !in statsMap {
        statsMap := statsMap[clusterName := stats];
        var ok := exporter.ExportWithGeneratedName(stats, clusterName);
        if !ok {
          statsMap := statsMap - {clusterName};
          assert statsMap == old(statsMap);
        }
      }
    }

    /**
     * unregisterBackendMetrics: the removal branch of updateMetrics for one
     * registered name. The object is unexported first and leaves the map only
     * when that succeeds; if the unexport throws, it stays registered so that a
     * later pass retries. An unregistered name is left alone.
     */
    method UnregisterBackendMetrics(clusterName: string)
      requires Valid()
      modifies this`statsMap, exporter`exported, exporter`calls
      ensures Valid()
      ensures statsMap ==
        if clusterName in old(statsMap) && clusterName !in exporter.refused then old(statsMap) - {clusterName}
        else old(statsMap)
      ensures exporter.calls == old(exporter.calls) + (if clusterName in old(statsMap) then [Unexport(clusterName)] else [])
    {
      if clusterName in statsMap {
        var ok := exporter.UnexportWithGeneratedName(clusterName);
        if ok {
          statsMap := statsMap - {clusterName};
        }
      }
    }

    /**
     * updateMetrics: reconcile the map with the current backend names. Every
     * registered name that is no longer a backend is unexported and, if that
     * succeeds, removed; then every backend name that is not registered is
     * registered. Names both registered and current keep their metric object
     * and see no exporter call.
     *
     * The removal loop runs over a snapshot of the key set. The source removes
     * from the map while iterating its live key set, which makes the iterator
     * throw; that behaviour is modelled by UpdateMetricsAsWritten below.
     */
    method UpdateMetrics()
      requires Valid()
      modifies this`statsMap, exporter`exported, exporter`calls
      ensures Valid()
      ensures statsMap.Keys == ReconciledKeys(old(statsMap).Keys, Names(gatewayBackendManager.rows), exporter.refused)
      ensures forall k :: k in statsMap && k in old(statsMap) ==> statsMap[k] == old(statsMap)[k]
      ensures forall k :: k in statsMap && k !in old(statsMap) ==> fresh(statsMap[k])
      ensures |old(exporter.calls)| <= |exporter.calls| && exporter.calls[..|old(exporter.calls)|] == old(exporter.calls)
      ensures PassCalls(exporter.calls[|old(exporter.calls)|..], old(statsMap).Keys, Names(gatewayBackendManager.rows))
      ensures |exporter.calls| - |old(exporter.calls)| ==
        |old(statsMap).Keys - Names(gatewayBackendManager.rows)| + |Names(gatewayBackendManager.rows) - old(statsMap).Keys|
    {
      var backends := gatewayBackendManager.GetAllBackends();
      var currentBackends := ConfigNames(backends);
      UpcastNames(backends, gatewayBackendManager.rows);
      ghost var registered := statsMap.Keys;

      var unexports := UnregisterRemovedBackends(currentBackends);
      ghost var kept := statsMap;
      PassKeys(registered, currentBackends, exporter.refused, kept.Keys, kept.Keys + ((currentBackends - kept.Keys) - exporter.refused));
      var exports := RegisterAddedBackends(currentBackends);

      ghost var issued := unexports + exports;
      assert exporter.calls == old(exporter.calls) + issued;
      assert exporter.calls[|old(exporter.calls)|..] == issued;
      PassCallsJoin(unexports, exports, registered, currentBackends, kept.Keys);
    }

    /**
     * The first loop of updateMetrics: every registered name that is not a
     * current backend is unexported, and removed from the map if that
     * succeeds. It iterates a snapshot of the key set.
     */
    method UnregisterRemovedBackends(currentBackends: set<string>) returns (ghost unexports: seq<ExporterCall>)
      requires Valid()
      modifies this`statsMap, exporter`exported, exporter`calls
      ensures Valid()
      ensures statsMap.Keys == old(statsMap).Keys - ((old(statsMap).Keys - currentBackends) - exporter.refused)
      ensures forall k :: k in statsMap ==> k in old(statsMap) && statsMap[k] == old(statsMap)[k]
      ensures exporter.calls == old(exporter.calls) + unexports
      ensures forall c :: c in unexports ==> c.Unexport? && c.name in old(statsMap) && c.name !in currentBackends
      ensures forall k :: k in old(statsMap) && k !in currentBackends ==> Unexport(k) in unexports
      ensures Distinct(unexports)
    {
      unexports := [];
      var registered := statsMap.Keys;
      var pending := registered;
      while pending != {}
        invariant pending <= registered
        invariant Valid()
        invariant statsMap.Keys == registered - (((registered - pending) - currentBackends) - exporter.refused)
        invariant forall k :: k in statsMap ==> k in old(statsMap) && statsMap[k] == old(statsMap)[k]
        invariant exporter.calls == old(exporter.calls) + unexports
        invariant forall c :: c in unexports ==> c.Unexport? && c.name in registered - pending && c.name !in currentBackends
        invariant forall k :: k in registered - pending && k !in currentBackends ==> Unexport(k) in unexports
        invariant Distinct(unexports)
        decreases pending
      {
        var registeredBackend :| registeredBackend in pending;
        if registeredBackend !in currentBackends {
          var ok := exporter.UnexportWithGeneratedName(registeredBackend);
          if ok {
            statsMap := statsMap - {registeredBackend};
          }
          AppendDistinct(unexports, Unexport(registeredBackend));
          unexports := unexports + [Unexport(registeredBackend)];
        }
        pending := pending - {registeredBackend};
      }
    }

    /**
     * The second loop of updateMetrics: every current backend name that is
     * not registered is registered.
     */
    method RegisterAddedBackends(currentBackends: set<string>) returns (ghost exports: seq<ExporterCall>)
      requires Valid()
      modifies this`statsMap, exporter`exported, exporter`calls
      ensures Valid()
      ensures statsMap.Keys == old(statsMap).Keys + ((currentBackends - old(statsMap).Keys) - exporter.refused)
      ensures forall k :: k in old(statsMap) ==> k in statsMap && statsMap[k] == old(statsMap)[k]
      ensures forall k :: k in statsMap && k !in old(statsMap) ==> fresh(statsMap[k])
      ensures exporter.calls == old(exporter.calls) + exports
      ensures forall c :: c in exports ==> c.Export? && c.name in currentBackends && c.name !in old(statsMap)
      ensures forall k :: k in currentBackends && k !in old(statsMap) ==> Export(k) in exports
      ensures Distinct(exports)
    {
      exports := [];
      var toAdd := currentBackends;
      while toAdd != {}
        invariant toAdd <= currentBackends
        invariant Valid()
        invariant statsMap.Keys == old(statsMap).Keys + (((currentBackends - toAdd) - old(statsMap).Keys) - exporter.refused)
        invariant forall k :: k in old(statsMap) ==> k in statsMap && statsMap[k] == old(statsMap)[k]
        invariant forall k :: k in statsMap && k !in old(statsMap) ==> fresh(statsMap[k])
        invariant exporter.calls == old(exporter.calls) + exports
        invariant forall c :: c in exports ==> c.Export? && c.name in currentBackends - toAdd && c.name !in old(statsMap)
        invariant forall k :: k in currentBackends - toAdd && k !in old(statsMap) ==> Export(k) in exports
        invariant Distinct(exports)
        decreases toAdd
      {
        var backend :| backend in toAdd;
        if backend !in statsMap {
          RegisterBackendMetrics(backend);
          AppendDistinct(exports, Export(backend));
          exports := exports + [Export(backend)];
        }
        toAdd := toAdd - {backend};
      }
    }

    /**
     * One run of the scheduled refresh task. An exception in the pass is
     * caught and logged; the one the model has is the backend table being
     * unreachable, which leaves the registry as it was.
     */
    method RefreshPass(storeReachable: bool)
      requires Valid()
      modifies this`statsMap, exporter`exported, exporter`calls
      ensures Valid()
      ensures !storeReachable ==> statsMap == old(statsMap) && exporter.calls == old(exporter.calls)
      ensures storeReachable ==>
        statsMap.Keys == ReconciledKeys(old(statsMap).Keys, Names(gatewayBackendManager.rows), exporter.refused)
    {
      if storeReachable {
        UpdateMetrics();
      }
    }
  }

  /** The calls of the removal loop followed by those of the registration loop make up one pass. */
  lemma PassCallsJoin(
    unexports: seq<ExporterCall>, exports: seq<ExporterCall>,
    registered: set<string>, current: set<string>, kept: set<string>)
    requires forall k :: k in current ==> (k in kept <==> k in registered)
    requires forall c :: c in unexports ==> c.Unexport? && c.name in registered && c.name !in current
    requires forall k :: k in registered && k !in current ==> Unexport(k) in unexports
    requires forall c :: c in exports ==> c.Export? && c.name in current && c.name !in kept
    requires forall k :: k in current && k !in kept ==> Export(k) in exports
    requires Distinct(unexports) && Distinct(exports)
    ensures PassCalls(unexports + exports, registered, current)
    ensures |unexports + exports| == |registered - current| + |current - registered|
  {
    var issued := unexports + exports;
    forall i | 0 <= i < |unexports| ensures issued[i].Unexport? {
      assert unexports[i] in unexports;
    }
    forall j | |unexports| <= j < |issued| ensures issued[j].Export? {
      assert exports[j - |unexports|] in exports;
    }
    forall c | c in exports ensures c.name !in registered {
      assert c.name in current && c.name !in kept;
    }
    forall k | k in current && k !in registered ensures Export(k) in issued {
      assert k !in kept;
    }
    PassCallsCount(issued, registered, current);
  }

  /**
   * A pass issues exactly as many calls as there are stale names plus new
   * names: one call per name that changes, and no repeats.
   */
  lemma PassCallsCount(issued: seq<ExporterCall>, registered: set<string>, current: set<string>)
    requires PassCalls(issued, registered, current)
    ensures |issued| == |registered - current| + |current - registered|
  {
    var stale := set k | k in registered - current :: Unexport(k);
    var added := set k | k in current - registered :: Export(k);
    var callSet := set c | c in issued;
    forall c | c in callSet ensures c in stale + added {
      assert c.Unexport? ==> Unexport(c.name) == c;
      assert c.Export? ==> Export(c.name) == c;
    }
    assert callSet == stale + added;
    assert stale * added == {};
    DistinctCard(issued);
    UnexportSetCard(registered - current);
    ExportSetCard(current - registered);
  }

  /** A sequence with no repeats has as many distinct elements as it has entries. */
  lemma {:induction false} DistinctCard(calls: seq<ExporterCall>)
    requires Distinct(calls)
    ensures |set c | c in calls| == |calls|
  {
    if calls != [] {
      var rest := calls[1..];
      assert Distinct(rest) by {
        forall i, j | 0 <= i < j < |rest| ensures rest[i] != rest[j] {
          assert rest[i] == calls[i + 1] && rest[j] == calls[j + 1];
        }
      }
      DistinctCard(rest);
      assert (set c | c in calls) == (set c | c in rest) + {calls[0]};
      assert calls[0] !in rest by {
        forall j | 0 <= j < |rest| ensures rest[j] != calls[0] {
          assert rest[j] == calls[j + 1];
        }
      }
    }
  }

  /** One unexport per name. */
  lemma {:induction false} UnexportSetCard(names: set<string>)
    ensures |set k | k in names :: Unexport(k)| == |names|
    decreases names
  {
    if names != {} {
      var x :| x in names;
      var rest := names - {x};
      UnexportSetCard(rest);
      assert (set k | k in names :: Unexport(k)) == (set k | k in rest :: Unexport(k)) + {Unexport(x)};
      assert Unexport(x) !in (set k | k in rest :: Unexport(k));
    }
  }

  /** One export per name. */
  lemma {:induction false} ExportSetCard(names: set<string>)
    ensures |set k | k in names :: Export(k)| == |names|
    decreases names
  {
    if names != {} {
      var x :| x in names;
      var rest := names - {x};
      ExportSetCard(rest);
      assert (set k | k in names :: Export(k)) == (set k | k in rest :: Export(k)) + {Export(x)};
      assert Export(x) !in (set k | k in rest :: Export(k));
    }
  }

  // ---- The removal loop as written ----

  /**
   * The position of the first name in `order` that is neither current nor
   * refused, that is, the first removal the loop makes; |order| when there is
   * none.
   */
  function FirstRemoval(order: seq<string>, current: set<string>, refused: set<string>): (i: nat)
    ensures i <= |order|
    ensures forall j :: 0 <= j < i ==> order[j] in current || order[j] in refused
    ensures i < |order| ==> order[i] !in current && order[i] !in refused
  {
    if order == [] then 0
    else if order[0] !in current && order[0] !in refused then 0
    else 1 + FirstRemoval(order[1..], current, refused)
  }

  /**
   * The removal loop of updateMetrics as the source writes it: it iterates
   * the map's live key set in `order` (the map's iteration order) and removes
   * a name after a successful unexport. The key-set iterator is fail-fast: the
   * step after a removal throws ConcurrentModificationException if any key is
   * left to visit. The result is the names left and whether it threw: only
   * the first removal happens, and the loop throws exactly when that removal
   * is not of the last name visited.
   */
  function RemovalLoopAsWritten(order: seq<string>, keys: set<string>, current: set<string>, refused: set<string>)
    : (r: (set<string>, bool))
    ensures keys * current <= r.0 <= keys
    ensures var i := FirstRemoval(order, current, refused);
      && r.0 == (if i < |order| then keys - {order[i]} else keys)
      && (r.1 <==> i < |order| - 1)
  {
    if order == [] then (keys, false)
    else
      var k := order[0];
      if k !in current && k !in refused then (keys - {k}, |order| > 1)
      else RemovalLoopAsWritten(order[1..], keys, current, refused)
  }

  /** The map's iteration order visits each registered name exactly once. */
  ghost predicate Enumerates(order: seq<string>, keys: set<string>)
  {
    && (forall k :: k in keys <==> k in order)
    && (forall i, j :: 0 <= i < j < |order| ==> order[i] != order[j])
  }

  /**
   * updateMetrics as written, followed by the scheduler's catch: if the
   * removal loop throws, the registration loop never runs in that pass.
   */
  function UpdateMetricsAsWritten(order: seq<string>, registered: set<string>, current: set<string>, refused: set<string>)
    : (keys: set<string>)
    requires Enumerates(order, registered)
    ensures registered * current <= keys <= registered + current
  {
    var (left, threw) := RemovalLoopAsWritten(order, registered, current, refused);
    if threw then left else left + ((current - left) - refused)
  }

  /**
   * Whatever the iteration order, as soon as two registered names are stale
   * and their unexports succeed, the pass as written keeps one of them: it
   * differs from the reconciled keys.
   */
  lemma AsWrittenKeepsStale(order: seq<string>, registered: set<string>, current: set<string>, refused: set<string>, a: string, b: string)
    requires Enumerates(order, registered)
    requires a != b && a in registered && b in registered
    requires a !in current && a !in refused && b !in current && b !in refused
    ensures UpdateMetricsAsWritten(order, registered, current, refused) != ReconciledKeys(registered, current, refused)
  {
    var i := FirstRemoval(order, current, refused);
    var ia :| 0 <= ia < |order| && order[ia] == a;
    var ib :| 0 <= ib < |order| && order[ib] == b;
    assert i <= ia && i <= ib;
    var other := if order[i] == a then b else a;
    assert other != order[i];
    assert i < |order| - 1;
    var (left, threw) := RemovalLoopAsWritten(order, registered, current, refused);
    assert threw && other in left;
    assert other !in ReconciledKeys(registered, current, refused);
  }

  /**
   * With backends a and b registered, only c current and no failures, the
   * pass as written removes a, throws, keeps the stale b and never registers
   * c; the intended pass leaves exactly {c}.
   */
  lemma AsWrittenAbortsPass()
    ensures UpdateMetricsAsWritten(["a", "b"], {"a", "b"}, {"c"}, {}) == {"b"}
    ensures ReconciledKeys({"a", "b"}, {"c"}, {}) == {"c"}
  {
    assert "a" != "b" && "a" != "c";
    assert {"a", "b"} - {"a"} == {"b"};
    assert RemovalLoopAsWritten(["a", "b"], {"a", "b"}, {"c"}, {}) == ({"b"}, true);
  }
}
