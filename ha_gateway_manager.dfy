/**
 * The backend manager (HaGatewayManager): upsert, delete and activation over the
 * name-keyed backend table, the read queries the router and the metrics use,
 * the row-to-configuration copy (upcast) and URL normalisation
 * (removeTrailingSlash).
 */
module GatewayManager {
  import opened Backends

  // ---- removeTrailingSlash: url.replaceAll("/$", "") ----

  /** The characters java.util.regex treats as line terminators when UNIX_LINES is off. */
  predicate IsLineTerminator(c: char)
  {
    c == '\n' || c == '\r' || c == '\U{85}' || c == '\U{2028}' || c == '\U{2029}'
  }

  /**
   * The positions where the regex anchor `$` matches (MULTILINE off): the end of
   * the input, or just before a line terminator that ends the input; "\r\n" is
   * one terminator, so `$` does not match between its two characters.
   */
  predicate EndAnchorAt(s: string, i: nat)
    requires i <= |s|
  {
    || i == |s|
    || (i + 1 == |s| && IsLineTerminator(s[i]) && !(s[i] == '\n' && i > 0 && s[i - 1] == '\r'))
    || (i + 2 == |s| && s[i] == '\r' && s[i + 1] == '\n')
  }

  /** The pattern "/$" matches at position i. */
  predicate SlashMatchAt(s: string, i: nat)
    requires i < |s|
  {
    s[i] == '/' && EndAnchorAt(s, i + 1)
  }

  /**
   * removeTrailingSlash replaces every match of "/$" by nothing. The pattern
   * matches at most once, so the result is the url without that one slash, or
   * the url itself when the pattern does not match.
   */
  function RemoveTrailingSlash(url: string): (r: string)
    ensures forall i :: 0 <= i < |url| && SlashMatchAt(url, i) ==> r == url[..i] + url[i + 1..]
    ensures (forall i :: 0 <= i < |url| ==> !SlashMatchAt(url, i)) ==> r == url
  {
    SlashMatchUnique(url);
    var n := |url|;
    if n >= 1 && url[n - 1] == '/' then assert SlashMatchAt(url, n - 1); url[..n - 1]
    else if n >= 2 && SlashMatchAt(url, n - 2) then url[..n - 2] + url[n - 1..]
    else if n >= 3 && SlashMatchAt(url, n - 3) then url[..n - 3] + url[n - 2..]
    else url
  }

  /** "/$" matches only within the last three characters, and at most once. */
  lemma SlashMatchUnique(url: string)
    ensures forall i :: 0 <= i < |url| && SlashMatchAt(url, i) ==> |url| - 3 <= i
    ensures forall i, j :: 0 <= i < j < |url| && SlashMatchAt(url, i) ==> !SlashMatchAt(url, j)
  {
    forall i, j | 0 <= i < j < |url| && SlashMatchAt(url, i) ensures !SlashMatchAt(url, j) {
      assert url[j] == '/' ==> !IsLineTerminator(url[j]);
    }
  }

  /** On a url without line terminators, exactly one final slash goes, if there is one. */
  lemma RemoveTrailingSlashPlain(url: string)
    requires forall i :: 0 <= i < |url| ==> !IsLineTerminator(url[i])
    ensures RemoveTrailingSlash(url) == if |url| > 0 && url[|url| - 1] == '/' then url[..|url| - 1] else url
  {
    var n := |url|;
    forall i | 0 <= i < n - 1 ensures !SlashMatchAt(url, i) {
      assert !IsLineTerminator(url[i + 1]);
    }
    if n > 0 && url[n - 1] == '/' {
      assert SlashMatchAt(url, n - 1);
    }
  }

  /** Only one slash goes: "a//" becomes "a/". */
  lemma RemoveTrailingSlashRemovesOne()
    ensures RemoveTrailingSlash("a//") == "a/"
  {
    assert "a//"[..2] == "a/";
  }

  /** The URLs of the manager's tests: a final slash goes, a url without one is unchanged. */
  lemma RemoveTrailingSlashTestUrls()
    ensures RemoveTrailingSlash("https://etl1.trino.gateway.io:443/") == "https://etl1.trino.gateway.io:443"
    ensures RemoveTrailingSlash("adhoc1.trino.gateway.io") == "adhoc1.trino.gateway.io"
  {
    assert "https://etl1.trino.gateway.io:443/"[..33] == "https://etl1.trino.gateway.io:443";
  }

  /** `$` also matches before a final line terminator, so the slash before it goes. */
  lemma RemoveTrailingSlashBeforeNewline()
    ensures RemoveTrailingSlash("a/\n") == "a\n"
  {
    assert SlashMatchAt("a/\n", 1);
    assert "a/\n"[..1] + "a/\n"[2..] == "a\n";
  }

  // ---- upcast ----

  /** configs is the field-for-field copy of rows, in the same order. */
  ghost predicate IsUpcast(configs: seq<BackendConfig>, rows: seq<GatewayBackend>)
  {
    |configs| == |rows| && forall i :: 0 <= i < |rows| ==> configs[i] == ToConfig(rows[i])
  }

  /** upcast: one configuration per row, in order, copying every field. */
  method Upcast(models: seq<GatewayBackend>) returns (configs: seq<BackendConfig>)
    ensures |configs| == |models|
    ensures forall i :: 0 <= i < |models| ==>
      && configs[i].name == models[i].name
      && configs[i].routingGroup == models[i].routingGroup
      && configs[i].proxyTo == models[i].backendUrl
      && configs[i].externalUrl == models[i].externalUrl
      && configs[i].active == models[i].active
    ensures IsUpcast(configs, models)
  {
    configs := [];
    for i := 0 to |models|
      invariant IsUpcast(configs, models[..i])
    {
      var model := models[i];
      var config := BackendConfig(model.name, model.routingGroup, model.backendUrl, model.externalUrl, model.active);
      configs := configs + [config];
    }
    assert models[..|models|] == models;
  }

  /** Every row of an upcast source appears configured in the upcast, and nothing else does. */
  lemma UpcastMembers(configs: seq<BackendConfig>, rows: seq<GatewayBackend>)
    requires IsUpcast(configs, rows)
    ensures forall row :: row in rows ==> ToConfig(row) in configs
    ensures forall c :: c in configs ==> exists row :: row in rows && c == ToConfig(row)
  {
    forall row | row in rows ensures ToConfig(row) in configs {
      var i :| 0 <= i < |rows| && rows[i] == row;
      assert configs[i] == ToConfig(row);
    }
    forall c | c in configs ensures exists row :: row in rows && c == ToConfig(row) {
      var i :| 0 <= i < |configs| && configs[i] == c;
      assert rows[i] in rows;
    }
  }

  /** The row that add and update write for a backend: both URLs lose their final slash. */
  function StoredRow(backend: BackendConfig): GatewayBackend
  {
    GatewayBackend(
      backend.name, backend.routingGroup,
      RemoveTrailingSlash(backend.proxyTo), RemoveTrailingSlash(backend.externalUrl),
      backend.active)
  }

  /** The table an upsert of backend leaves: the existing row overwritten in place, or the stored row appended. */
  ghost function UpsertRows(rows: seq<GatewayBackend>, backend: BackendConfig): seq<GatewayBackend>
  {
    var row := StoredRow(backend);
    if backend.name in Names(rows)
    then UpdateWhere(rows, backend.name, Overwrite(row.routingGroup, row.backendUrl, row.externalUrl, row.active))
    else rows + [row]
  }

  /**
   * What an upsert of backend does to the name-keyed view of the table: its
   * name is present and maps to the stored row, and every other name keeps
   * its record.
   */
  ghost predicate Upserted(before: seq<GatewayBackend>, after: seq<GatewayBackend>, backend: BackendConfig)
  {
    && Names(after) == Names(before) + {backend.name}
    && Lookup(after, backend.name) == Some(StoredRow(backend))
    && forall n :: n != backend.name ==> Lookup(after, n) == Lookup(before, n)
  }

  /**
   * The tables of the manager's test sequence, for any two distinct names a
   * and b: add backend first (named a), upsert second (named b, so a new row),
   * upsert third (named a, so an overwrite in place), delete a.
   */
  lemma ManagerTestTables(first: BackendConfig, second: BackendConfig, third: BackendConfig)
    requires first.name != second.name && third.name == first.name
    ensures UpsertRows([StoredRow(first)], second) == [StoredRow(first), StoredRow(second)]
    ensures UpsertRows([StoredRow(first), StoredRow(second)], third) == [StoredRow(third), StoredRow(second)]
    ensures DeleteWhere([StoredRow(third), StoredRow(second)], first.name) == [StoredRow(second)]
  {
    var t1 := [StoredRow(first)];
    assert Names(t1) == {first.name};
    var t2 := [StoredRow(first), StoredRow(second)];
    assert Names(t2) == {first.name, second.name} by {
      NamesCons(t2);
      assert t2[1..] == [StoredRow(second)];
    }
    var t3 := [StoredRow(third), StoredRow(second)];
    assert t3[1..] == [StoredRow(second)];
  }

  /**
   * The manager's test sequence: an active "adhoc" backend, then a new
   * inactive "adhoc" one, then the first moved to "etl" and made inactive,
   * then the first deleted. The sizes and groups of each listing are the ones
   * the test expects; the groups are compared as a multiset, since the table
   * promises no order.
   */
  lemma ManagerTestSequence(a: string, b: string, url1: string, url2: string)
    requires a != b
    ensures
      var first := BackendConfig(a, AdhocGroup, url1, url1, true);
      var t1 := [StoredRow(first)];
      var t2 := UpsertRows(t1, first.(name := b, active := false));
      var t3 := UpsertRows(t2, BackendConfig(a, "etl", url2, url2, false));
      var t4 := DeleteWhere(t3, a);
      && |Select(t1, ActiveInGroup(AdhocGroup))| == 1 && Select(t1, ActiveInGroup("unknown")) == []
      && |Select(t2, ActiveInGroup(AdhocGroup))| == 1
      && |t2| == 2 && multiset{t2[0].routingGroup, t2[1].routingGroup} == multiset{AdhocGroup, AdhocGroup}
      && Select(t3, ActiveInGroup(AdhocGroup)) == []
      && |t3| == 2 && multiset{t3[0].routingGroup, t3[1].routingGroup} == multiset{AdhocGroup, "etl"}
      && |t4| == 1 && t4[0].routingGroup == AdhocGroup
  {
    var first := BackendConfig(a, AdhocGroup, url1, url1, true);
    var second := first.(name := b, active := false);
    var third := BackendConfig(a, "etl", url2, url2, false);
    ManagerTestTables(first, second, third);
    var r1, r2, r3 := StoredRow(first), StoredRow(second), StoredRow(third);
    assert [r1, r2][1..] == [r2];
    assert [r3, r2][1..] == [r2];
  }

  /** The backend manager over its table. */
  class HaGatewayManager {
    /** The backend table, in table order. */
    var rows: seq<GatewayBackend>

    ghost predicate Valid()
      reads this
    {
      UniqueNames(rows)
    }

    constructor (table: seq<GatewayBackend>)
      requires UniqueNames(table)
      ensures Valid() && rows == table
    {
      rows := table;
    }

    /** getAllBackends: every row, in table order. */
    method GetAllBackends() returns (backends: seq<BackendConfig>)
      ensures IsUpcast(backends, rows)
    {
      SelectAll(rows);
      backends := Upcast(Select(rows, All));
    }

    /** getAllActiveBackends: exactly the active rows, in table order. */
    method GetAllActiveBackends() returns (backends: seq<BackendConfig>)
      ensures IsUpcast(backends, Select(rows, Active))
      ensures forall b :: b in backends ==> b.active
      ensures forall row :: row in rows && row.active ==> ToConfig(row) in backends
    {
      backends := Upcast(Select(rows, Active));
      UpcastMembers(backends, Select(rows, Active));
    }

    /**
     * getActiveAdhocBackends: the active rows of the "adhoc" group; when the
     * query throws (queryFails), the exception is swallowed and the list is empty.
     */
    method GetActiveAdhocBackends(queryFails: bool) returns (backends: seq<BackendConfig>)
      ensures queryFails ==> backends == []
      ensures !queryFails ==> IsUpcast(backends, Select(rows, ActiveInGroup(AdhocGroup)))
      ensures forall b :: b in backends ==> b.active && b.routingGroup == AdhocGroup
    {
      if queryFails {
        return [];
      }
      backends := Upcast(Select(rows, ActiveInGroup(AdhocGroup)));
      UpcastMembers(backends, Select(rows, ActiveInGroup(AdhocGroup)));
    }

    /** getActiveBackends(routingGroup): exactly the active rows of that group, in table order. */
    method GetActiveBackends(routingGroup: string) returns (backends: seq<BackendConfig>)
      ensures IsUpcast(backends, Select(rows, ActiveInGroup(routingGroup)))
      ensures forall b :: b in backends ==> b.active && b.routingGroup == routingGroup
      ensures forall row :: row in rows && row.active && row.routingGroup == routingGroup ==> ToConfig(row) in backends
    {
      backends := Upcast(Select(rows, ActiveInGroup(routingGroup)));
      UpcastMembers(backends, Select(rows, ActiveInGroup(routingGroup)));
    }

    /** getBackendByName: the configuration of the row with that name, if there is one. */
    method GetBackendByName(name: string) returns (backend: Option<BackendConfig>)
      requires Valid()
      ensures backend.Some? <==> name in Names(rows)
      ensures backend.Some? ==> exists row :: row in rows && row.name == name && backend.value == ToConfig(row)
      ensures backend == match Lookup(rows, name) case Some(row) => Some(ToConfig(row)) case None => None
    {
      SelectNamed(rows, name);
      var found := Upcast(Select(rows, Named(name)));
      // findAny
      if |found| > 0 {
        backend := Some(found[0]);
      } else {
        backend := None;
      }
    }

    /**
     * deactivateBackend: clear the active flag of that backend only. Reading
     * the previous status dereferences the looked-up row, so a missing name
     * fails before the table is touched.
     */
    method DeactivateBackend(backendName: string) returns (outcome: Outcome)
      requires Valid()
      modifies this
      ensures Valid()
      ensures backendName !in Names(old(rows)) ==> outcome == Failed(NoSuchBackend(backendName)) && rows == old(rows)
      ensures backendName in Names(old(rows)) ==> outcome == Done && rows == UpdateWhere(old(rows), backendName, SetActive(false))
      ensures Names(rows) == Names(old(rows))
      ensures backendName in Names(old(rows)) ==>
        Lookup(rows, backendName) == Some(Lookup(old(rows), backendName).value.(active := false))
      ensures forall n :: n != backendName ==> Lookup(rows, n) == Lookup(old(rows), n)
    {
      var prevStatus := Lookup(rows, backendName);
      if prevStatus.None? {
        return Failed(NoSuchBackend(backendName));
      }
      ghost var before := rows;
      rows := UpdateWhere(rows, backendName, SetActive(false));
      UpdateWhereNames(before, backendName, SetActive(false));
      forall n ensures Lookup(rows, n) == (if n == backendName then Some(Lookup(before, n).value.(active := false)) else Lookup(before, n)) {
        UpdateWhereLookup(before, backendName, SetActive(false), n);
      }
      outcome := Done;
    }

    /** activateBackend: set the active flag of that backend only; a missing name fails as in deactivateBackend. */
    method ActivateBackend(backendName: string) returns (outcome: Outcome)
      requires Valid()
      modifies this
      ensures Valid()
      ensures backendName !in Names(old(rows)) ==> outcome == Failed(NoSuchBackend(backendName)) && rows == old(rows)
      ensures backendName in Names(old(rows)) ==> outcome == Done && rows == UpdateWhere(old(rows), backendName, SetActive(true))
      ensures Names(rows) == Names(old(rows))
      ensures backendName in Names(old(rows)) ==>
        Lookup(rows, backendName) == Some(Lookup(old(rows), backendName).value.(active := true))
      ensures forall n :: n != backendName ==> Lookup(rows, n) == Lookup(old(rows), n)
    {
      var prevStatus := Lookup(rows, backendName);
      if prevStatus.None? {
        return Failed(NoSuchBackend(backendName));
      }
      ghost var before := rows;
      rows := UpdateWhere(rows, backendName, SetActive(true));
      UpdateWhereNames(before, backendName, SetActive(true));
      forall n ensures Lookup(rows, n) == (if n == backendName then Some(Lookup(before, n).value.(active := true)) else Lookup(before, n)) {
        UpdateWhereLookup(before, backendName, SetActive(true), n);
      }
      outcome := Done;
    }

    /**
     * addBackend: create a row with both URLs normalised and return the
     * argument itself, not the normalised copy. A taken name makes the insert
     * fail and nothing is written.
     */
    method AddBackend(backend: BackendConfig) returns (result: Result<BackendConfig>)
      requires Valid()
      modifies this
      ensures Valid()
      ensures backend.name in Names(old(rows)) ==> result == Err(DuplicateName(backend.name)) && rows == old(rows)
      ensures backend.name !in Names(old(rows)) ==> result == Ok(backend) && rows == old(rows) + [StoredRow(backend)]
      ensures backend.name !in Names(old(rows)) ==> |rows| == |old(rows)| + 1 && Lookup(rows, backend.name) == Some(StoredRow(backend))
      ensures forall n :: n != backend.name ==> Lookup(rows, n) == Lookup(old(rows), n)
    {
      var backendProxyTo := RemoveTrailingSlash(backend.proxyTo);
      var backendExternalUrl := RemoveTrailingSlash(backend.externalUrl);
      var row := GatewayBackend(backend.name, backend.routingGroup, backendProxyTo, backendExternalUrl, backend.active);
      var created := Insert(rows, row);
      if created.Err? {
        return Err(created.error);
      }
      forall n ensures Lookup(rows + [row], n) == if n == row.name then Some(row) else Lookup(rows, n) {
        InsertLookup(rows, row, n);
      }
      rows := created.value;
      result := Ok(backend);
    }

    /**
     * updateBackend: an upsert. A new name gets a new row and the table grows
     * by one; an existing name has its group, URLs and active flag replaced and
     * the table keeps its size. Either way the argument itself is returned.
     */
    method UpdateBackend(backend: BackendConfig) returns (updated: BackendConfig)
      requires Valid()
      modifies this
      ensures Valid()
      ensures updated == backend
      ensures rows == UpsertRows(old(rows), backend)
      ensures |rows| == |old(rows)| + (if backend.name in Names(old(rows)) then 0 else 1)
      ensures Upserted(old(rows), rows, backend)
    {
      var backendProxyTo := RemoveTrailingSlash(backend.proxyTo);
      var backendExternalUrl := RemoveTrailingSlash(backend.externalUrl);
      var row := GatewayBackend(backend.name, backend.routingGroup, backendProxyTo, backendExternalUrl, backend.active);
      var model := Lookup(rows, backend.name);
      ghost var before := rows;
      if model.None? {
        forall n ensures Lookup(rows + [row], n) == if n == row.name then Some(row) else Lookup(rows, n) {
          InsertLookup(rows, row, n);
        }
        rows := rows + [row];
      } else {
        var edit := Overwrite(backend.routingGroup, backendProxyTo, backendExternalUrl, backend.active);
        rows := UpdateWhere(rows, backend.name, edit);
        UpdateWhereNames(before, backend.name, edit);
        forall n ensures Lookup(rows, n) == if n == backend.name then Some(Patched(model.value, edit)) else Lookup(before, n) {
          UpdateWhereLookup(before, backend.name, edit, n);
        }
      }
      updated := backend;
    }

    /** deleteBackend: remove the row with that name; every other row keeps its record. */
    method DeleteBackend(name: string)
      requires Valid()
      modifies this
      ensures Valid()
      ensures rows == DeleteWhere(old(rows), name)
      ensures Names(rows) == Names(old(rows)) - {name}
      ensures |rows| == |old(rows)| - (if name in Names(old(rows)) then 1 else 0)
      ensures forall n :: n != name ==> Lookup(rows, n) == Lookup(old(rows), n)
    {
      ghost var before := rows;
      rows := DeleteWhere(rows, name);
      DeleteWhereNames(before, name);
      forall n ensures Lookup(rows, n) == if n == name then None else Lookup(before, n) {
        DeleteWhereLookup(before, name, n);
      }
    }
  }
}
