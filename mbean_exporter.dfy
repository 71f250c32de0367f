/**
 * The JMX exporter the registry publishes its metric objects through, reduced
 * to what the registry relies on: which objects are exported under which
 * cluster name, and that an export or an unexport may throw.
 */
module Jmx {
  import opened ClusterMetrics

  /** One call the registry made on the exporter. */
  datatype ExporterCall = Export(name: string) | Unexport(name: string)

  class MBeanExporter {
    /** The exported metric objects, by the cluster name in their generated MBean name. */
    var exported: map<string, BackendClusterMetricStats>
    /**
     * The cluster names the MBean server currently rejects. Export and unexport
     * of such a name throw; this stands for every failure of the server that the
     * registry cannot see in advance, and is chosen by the environment.
     */
    var refused: set<string>
    /** Every export and unexport attempted, in order. */
    ghost var calls: seq<ExporterCall>

    constructor (refused: set<string>)
      ensures exported == map[] && this.refused == refused && calls == []
    {
      exported := map[];
      this.refused := refused;
      calls := [];
    }

    /**
     * exportWithGeneratedName: publish the object under the name. It throws
     * (ok is false) when the name is taken or the server rejects it.
     */
    method ExportWithGeneratedName(stats: BackendClusterMetricStats, name: string) returns (ok: bool)
      modifies this`exported, this`calls
      ensures ok == (name !in old(exported) && name !in refused)
      ensures exported == if ok then old(exported)[name := stats] else old(exported)
      ensures calls == old(calls) + [Export(name)]
    {
      calls := calls + [Export(name)];
      ok := name !in exported && name !in refused;
      if ok {
        exported := exported[name := stats];
      }
    }

    /**
     * unexportWithGeneratedName: withdraw the object published under the name.
     * It throws (ok is false) when nothing is published there or the server
     * rejects it.
     */
    method UnexportWithGeneratedName(name: string) returns (ok: bool)
      modifies this`exported, this`calls
      ensures ok == (name in old(exported) && name !in refused)
      ensures exported == if ok then old(exported) - {name} else old(exported)
      ensures calls == old(calls) + [Unexport(name)]
    {
      calls := calls + [Unexport(name)];
      ok := name in exported && name !in refused;
      if ok {
        exported := exported - {name};
      }
    }
  }
}
