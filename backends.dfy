/**
 * Backend records of the gateway and the in-memory stand-in for its backend
 * table: the rows that GatewayBackendDao reads and writes, and the queries and
 * updates the backend manager issues against them.
 *
 * The table is a sequence of rows in table order. Its primary key is the
 * backend name (`UniqueNames`).
 */
module Backends {

  datatype Option<T> = None | Some(value: T)

  /** A backend as the administrative API and the router see it (ProxyBackendConfiguration). */
  datatype BackendConfig = BackendConfig(
    name: string,
    routingGroup: string,
    proxyTo: string,
    externalUrl: string,
    active: bool)

  /** One row of the backend table (GatewayBackend); its URL column is backendUrl. */
  datatype GatewayBackend = GatewayBackend(
    name: string,
    routingGroup: string,
    backendUrl: string,
    externalUrl: string,
    active: bool)

  /** The field-for-field copy that upcast makes of one row. */
  function ToConfig(row: GatewayBackend): BackendConfig
  {
    BackendConfig(row.name, row.routingGroup, row.backendUrl, row.externalUrl, row.active)
  }

  /** Why a table operation fails: a second row with a taken name, or a missing row. */
  datatype StoreError = DuplicateName(name: string) | NoSuchBackend(name: string)

  datatype Result<T> = Ok(value: T) | Err(error: StoreError)

  /** The outcome of an operation that returns nothing when it succeeds. */
  datatype Outcome = Done | Failed(error: StoreError)

  /** The names present in the table. */
  function Names(rows: seq<GatewayBackend>): set<string>
  {
    set row | row in rows :: row.name
  }

  /** The primary key of the table: no two rows share a name. */
  ghost predicate UniqueNames(rows: seq<GatewayBackend>)
  {
    forall i, j :: 0 <= i < j < |rows| ==> rows[i].name != rows[j].name
  }

  lemma NamesCons(rows: seq<GatewayBackend>)
    requires rows != []
    ensures Names(rows) == {rows[0].name} + Names(rows[1..])
  {
    assert rows == [rows[0]] + rows[1..];
    forall n | n in Names(rows) ensures n in {rows[0].name} + Names(rows[1..]) {
      var row :| row in rows && row.name == n;
      if row != rows[0] {
        assert row in rows[1..];
      }
    }
  }

  /** Dropping the first row of a table with unique names keeps them unique, and the first name does not recur. */
  lemma UniqueTail(rows: seq<GatewayBackend>)
    requires UniqueNames(rows) && rows != []
    ensures UniqueNames(rows[1..])
    ensures rows[0].name !in Names(rows[1..])
  {
    var tail := rows[1..];
    forall i, j | 0 <= i < j < |tail| ensures tail[i].name != tail[j].name {
      assert tail[i] == rows[i + 1] && tail[j] == rows[j + 1];
    }
    forall x | x in tail ensures x.name != rows[0].name {
      var j :| 0 <= j < |tail| && tail[j] == x;
      assert rows[j + 1] == x;
    }
  }

  /** findFirstByName: the first row with the given name, if there is one. */
  function Lookup(rows: seq<GatewayBackend>, name: string): (r: Option<GatewayBackend>)
    ensures r.Some? ==> r.value in rows && r.value.name == name
    ensures r.None? <==> name !in Names(rows)
  {
    if rows == [] then None
    else
      NamesCons(rows);
      if rows[0].name == name then Some(rows[0])
      else Lookup(rows[1..], name)
  }

  /** In a table with unique names, looking up the name of any row finds that row. */
  lemma {:induction false} LookupAt(rows: seq<GatewayBackend>, i: nat)
    requires UniqueNames(rows)
    requires i < |rows|
    ensures Lookup(rows, rows[i].name) == Some(rows[i])
  {
    if i > 0 {
      assert rows[0].name != rows[i].name;
      assert rows[1..][i - 1] == rows[i];
      LookupAt(rows[1..], i - 1);
    }
  }

  /** In a table with unique names, every row is what looking up its name finds. */
  lemma LookupRows(rows: seq<GatewayBackend>)
    requires UniqueNames(rows)
    ensures forall row :: row in rows ==> Lookup(rows, row.name) == Some(row)
  {
    forall row | row in rows ensures Lookup(rows, row.name) == Some(row) {
      var i :| 0 <= i < |rows| && rows[i] == row;
      LookupAt(rows, i);
    }
  }

  /**
   * The read queries of the backend table: findAll, findActiveBackend,
   * findActiveBackendByRoutingGroup (findActiveAdhocBackend is the group
   * "adhoc") and findByName.
   */
  datatype Query = All | Active | ActiveInGroup(group: string) | Named(name: string)

  /** The routing group that findActiveAdhocBackend selects. */
  const AdhocGroup: string := "adhoc"

  predicate Matches(row: GatewayBackend, q: Query)
  {
    match q
    case All => true
    case Active => row.active
    case ActiveInGroup(g) => row.active && row.routingGroup == g
    case Named(n) => row.name == n
  }

  /** The rows a query returns, in table order. */
  function Select(rows: seq<GatewayBackend>, q: Query): (r: seq<GatewayBackend>)
    ensures |r| <= |rows|
    ensures forall row :: row in r <==> row in rows && Matches(row, q)
  {
    if rows == [] then []
    else
      assert rows == [rows[0]] + rows[1..];
      (if Matches(rows[0], q) then [rows[0]] else []) + Select(rows[1..], q)
  }

  /** findAll returns the whole table, in order. */
  lemma {:induction false} SelectAll(rows: seq<GatewayBackend>)
    ensures Select(rows, All) == rows
  {
    if rows != [] {
      SelectAll(rows[1..]);
      assert rows == [rows[0]] + rows[1..];
    }
  }

  /** findByName on a table with unique names returns the one row with that name, or nothing. */
  lemma {:induction false} SelectNamed(rows: seq<GatewayBackend>, name: string)
    requires UniqueNames(rows)
    ensures Select(rows, Named(name)) == match Lookup(rows, name) case Some(row) => [row] case None => []
  {
    if rows != [] {
      UniqueTail(rows);
      SelectNamed(rows[1..], name);
    }
  }

  /** The SET part of the two UPDATE statements: a full overwrite, or the active flag alone. */
  datatype Edit =
    | Overwrite(routingGroup: string, backendUrl: string, externalUrl: string, active: bool)
    | SetActive(active: bool)

  function Patched(row: GatewayBackend, edit: Edit): GatewayBackend
  {
    match edit
    case Overwrite(g, u, e, a) => row.(routingGroup := g, backendUrl := u, externalUrl := e, active := a)
    case SetActive(a) => row.(active := a)
  }

  /** create: a new row, refused when the name is already taken. */
  function Insert(rows: seq<GatewayBackend>, row: GatewayBackend): (r: Result<seq<GatewayBackend>>)
    ensures r.Ok? <==> row.name !in Names(rows)
    ensures r.Ok? ==> r.value == rows + [row]
    ensures r.Err? ==> r.error == DuplicateName(row.name)
  {
    if row.name in Names(rows) then Err(DuplicateName(row.name)) else Ok(rows + [row])
  }

  /** update, activate and deactivate: apply an edit to every row with the given name. */
  function UpdateWhere(rows: seq<GatewayBackend>, name: string, edit: Edit): (r: seq<GatewayBackend>)
    ensures |r| == |rows|
    ensures forall i :: 0 <= i < |rows| ==> r[i] == if rows[i].name == name then Patched(rows[i], edit) else rows[i]
  {
    if rows == [] then []
    else [if rows[0].name == name then Patched(rows[0], edit) else rows[0]] + UpdateWhere(rows[1..], name, edit)
  }

  /** deleteByName: drop every row with the given name. */
  function DeleteWhere(rows: seq<GatewayBackend>, name: string): (r: seq<GatewayBackend>)
    ensures |r| <= |rows|
    ensures forall row :: row in r <==> row in rows && row.name != name
  {
    if rows == [] then []
    else
      assert rows == [rows[0]] + rows[1..];
      (if rows[0].name != name then [rows[0]] else []) + DeleteWhere(rows[1..], name)
  }

  // ---- What each table operation does to the name-keyed view ----

  /** A successful insert adds exactly the new row: the table grows by one and no other name changes. */
  lemma {:induction false} InsertLookup(rows: seq<GatewayBackend>, row: GatewayBackend, n: string)
    requires UniqueNames(rows)
    requires row.name !in Names(rows)
    ensures Insert(rows, row) == Ok(rows + [row])
    ensures UniqueNames(rows + [row]) && Names(rows + [row]) == Names(rows) + {row.name}
    ensures Lookup(rows + [row], n) == if n == row.name then Some(row) else Lookup(rows, n)
  {
    var grown := rows + [row];
    forall i, j | 0 <= i < j < |grown| ensures grown[i].name != grown[j].name {
      if j == |rows| {
        assert grown[i] == rows[i];
        assert rows[i] in rows;
      }
    }
    forall m | m in Names(grown) ensures m in Names(rows) + {row.name} {
      var x :| x in grown && x.name == m;
      assert x == row || x in rows;
    }
    assert row in grown;
    forall m | m in Names(rows) ensures m in Names(grown) {
      var x :| x in rows && x.name == m;
      assert x in grown;
    }
    if rows != [] {
      assert grown[1..] == rows[1..] + [row];
      UniqueTail(rows);
      NamesCons(rows);
      InsertLookup(rows[1..], row, n);
    }
  }

  /** An update never renames a row, so the names and their uniqueness stay as they were. */
  lemma UpdateWhereNames(rows: seq<GatewayBackend>, name: string, edit: Edit)
    ensures Names(UpdateWhere(rows, name, edit)) == Names(rows)
    ensures UniqueNames(rows) ==> UniqueNames(UpdateWhere(rows, name, edit))
  {
    var r := UpdateWhere(rows, name, edit);
    forall i | 0 <= i < |rows| ensures r[i].name == rows[i].name {
      match edit
      case Overwrite(_, _, _, _) =>
      case SetActive(_) =>
    }
    forall m | m in Names(r) ensures m in Names(rows) {
      var x :| x in r && x.name == m;
      var i :| 0 <= i < |r| && r[i] == x;
      assert rows[i] in rows;
    }
    forall m | m in Names(rows) ensures m in Names(r) {
      var x :| x in rows && x.name == m;
      var i :| 0 <= i < |rows| && rows[i] == x;
      assert r[i] in r;
    }
  }

  /** An update edits the record of that name only; every other name keeps its record. */
  lemma {:induction false} UpdateWhereLookup(rows: seq<GatewayBackend>, name: string, edit: Edit, n: string)
    ensures Lookup(UpdateWhere(rows, name, edit), n) ==
      if n == name then (match Lookup(rows, n) case Some(row) => Some(Patched(row, edit)) case None => None)
      else Lookup(rows, n)
  {
    if rows != [] {
      var r := UpdateWhere(rows, name, edit);
      assert r[1..] == UpdateWhere(rows[1..], name, edit);
      assert r[0].name == rows[0].name by {
        match edit
        case Overwrite(_, _, _, _) =>
        case SetActive(_) =>
      }
      UpdateWhereLookup(rows[1..], name, edit, n);
    }
  }

  /** A delete removes that name only, and keeps the remaining names unique. */
  lemma DeleteWhereNames(rows: seq<GatewayBackend>, name: string)
    requires UniqueNames(rows)
    ensures UniqueNames(DeleteWhere(rows, name))
    ensures Names(DeleteWhere(rows, name)) == Names(rows) - {name}
    ensures |DeleteWhere(rows, name)| == |rows| - (if name in Names(rows) then 1 else 0)
  {
    DeleteWhereNameSet(rows, name);
    DeleteWhereUnique(rows, name);
    DeleteWhereCount(rows, name);
  }

  /** A delete keeps the names unique. */
  lemma {:induction false} DeleteWhereUnique(rows: seq<GatewayBackend>, name: string)
    requires UniqueNames(rows)
    ensures UniqueNames(DeleteWhere(rows, name))
  {
    if rows != [] && rows[0].name != name {
      var r := DeleteWhere(rows, name);
      var rest := DeleteWhere(rows[1..], name);
      UniqueTail(rows);
      DeleteWhereUnique(rows[1..], name);
      assert r == [rows[0]] + rest;
      forall i, j | 0 <= i < j < |r| ensures r[i].name != r[j].name {
        assert r[j] == rest[j - 1];
        if i == 0 {
          assert rest[j - 1] in rest;
        } else {
          assert r[i] == rest[i - 1];
        }
      }
    } else if rows != [] {
      UniqueTail(rows);
      DeleteWhereUnique(rows[1..], name);
    }
  }

  /** With unique names a delete removes one row if the name is present and none otherwise. */
  lemma {:induction false} DeleteWhereCount(rows: seq<GatewayBackend>, name: string)
    requires UniqueNames(rows)
    ensures |DeleteWhere(rows, name)| == |rows| - (if name in Names(rows) then 1 else 0)
  {
    if rows != [] {
      UniqueTail(rows);
      NamesCons(rows);
      DeleteWhereCount(rows[1..], name);
    }
  }

  /** The names a delete leaves are the old names without the deleted one. */
  lemma DeleteWhereNameSet(rows: seq<GatewayBackend>, name: string)
    ensures Names(DeleteWhere(rows, name)) == Names(rows) - {name}
  {
    var r := DeleteWhere(rows, name);
    forall m | m in Names(r) ensures m in Names(rows) - {name} {
      var x :| x in r && x.name == m;
    }
    forall m | m in Names(rows) - {name} ensures m in Names(r) {
      var x :| x in rows && x.name == m;
      assert x in r;
    }
  }

  /** A delete leaves every other name's record as it was. */
  lemma {:induction false} DeleteWhereLookup(rows: seq<GatewayBackend>, name: string, n: string)
    ensures Lookup(DeleteWhere(rows, name), n) == if n == name then None else Lookup(rows, n)
  {
    if rows != [] {
      DeleteWhereLookup(rows[1..], name, n);
      var rest := DeleteWhere(rows[1..], name);
      if rows[0].name != name {
        var r := [rows[0]] + rest;
        assert DeleteWhere(rows, name) == r;
        assert r[0] == rows[0] && r[1..] == rest;
        if rows[0].name != n {
          assert Lookup(r, n) == Lookup(rest, n);
        }
      } else {
        assert DeleteWhere(rows, name) == rest;
      }
    }
  }
}
