/**
 Row-level security of the tenancy tables as a transition system.

 `workspaces` and `instances` are keyed by `org_id`; `environments` and `bindings` inherit the
 boundary from a parent row. Every policy has a WITH CHECK equal to its USING clause. A statement
 reads the database through the policies; keys, foreign keys and cascades act on the whole tables.
 */
module Rls {
  import opened Text

  type Uuid = nat

  datatype Workspace = Workspace(org: Uuid, slug: string, columns: string)
  datatype Environment = Environment(workspace: Uuid, slug: string, columns: string)
  datatype Instance = Instance(org: Uuid, workspace: Uuid, environment: Uuid, uid: string, columns: string)
  datatype Binding = Binding(pluginSet: Uuid, columns: string)

  /** Bindings are keyed by their `instance_id`. */
  datatype Db = Db(
    workspaces: map<Uuid, Workspace>,
    environments: map<Uuid, Environment>,
    instances: map<Uuid, Instance>,
    bindings: map<Uuid, Binding>)

  /** `mcpg.org_id`: never set (NULL), set to text that is no UUID (such as ''), or an org. */
  datatype Scope = Unset | NotUuid | Org(id: Uuid)

  // ---------------------------------------------------------------- policies

  predicate OrgPolicy(scope: Scope, org: Uuid) {
    scope.Org? && org == scope.id
  }

  function Rows<Row>(table: map<Uuid, Row>, visible: (Uuid, Row) -> bool): map<Uuid, Row> {
    map id | id in table && visible(id, table[id]) :: table[id]
  }

  function WorkspacePolicy(scope: Scope): (Uuid, Workspace) -> bool {
    (id: Uuid, w: Workspace) => OrgPolicy(scope, w.org)
  }

  function EnvironmentPolicy(db: Db, scope: Scope): (Uuid, Environment) -> bool {
    (id: Uuid, e: Environment) => e.workspace in Rows(db.workspaces, WorkspacePolicy(scope))
  }

  function InstancePolicy(scope: Scope): (Uuid, Instance) -> bool {
    (id: Uuid, i: Instance) => OrgPolicy(scope, i.org)
  }

  function BindingPolicy(db: Db, scope: Scope): (Uuid, Binding) -> bool {
    (id: Uuid, b: Binding) => id in Rows(db.instances, InstancePolicy(scope))
  }

  /** Everything a session scoped to `scope` can read. */
  function View(db: Db, scope: Scope): Db {
    Db(
      Rows(db.workspaces, WorkspacePolicy(scope)),
      Rows(db.environments, EnvironmentPolicy(db, scope)),
      Rows(db.instances, InstancePolicy(scope)),
      Rows(db.bindings, BindingPolicy(db, scope)))
  }

  // ---------------------------------------------------------------- constraints

  predicate ForeignKeys(db: Db) {
    && (forall id <- db.environments :: db.environments[id].workspace in db.workspaces)
    && (forall id <- db.instances :: db.instances[id].workspace in db.workspaces)
    && (forall id <- db.instances :: db.instances[id].environment in db.environments)
    && (forall id <- db.bindings :: id in db.instances)
  }

  predicate UniqueKeys(db: Db) {
    && (forall i <- db.workspaces, j <- db.workspaces |
          db.workspaces[i].org == db.workspaces[j].org && db.workspaces[i].slug == db.workspaces[j].slug :: i == j)
    && (forall i <- db.environments, j <- db.environments |
          db.environments[i].workspace == db.environments[j].workspace &&
          db.environments[i].slug == db.environments[j].slug :: i == j)
    && (forall i <- db.instances, j <- db.instances |
          db.instances[i].workspace == db.instances[j].workspace &&
          db.instances[i].uid == db.instances[j].uid :: i == j)
  }

  predicate Consistent(db: Db) {
    ForeignKeys(db) && UniqueKeys(db)
  }

  // ---------------------------------------------------------------- statements

  /** A data change; every expression in it may read the session's view of the database. */
  datatype Dml<!Row> =
    | Insert(rows: Db -> map<Uuid, Row>)
    | Update(filter: (Db, Uuid, Row) -> bool, newId: (Db, Uuid, Row) -> Uuid, newRow: (Db, Uuid, Row) -> Row)
    | Delete(filter: (Db, Uuid, Row) -> bool)

  datatype Statement =
    | Select(query: Db -> string)
    | OnWorkspaces(w: Dml<Workspace>)
    | OnEnvironments(e: Dml<Environment>)
    | OnInstances(i: Dml<Instance>)
    | OnBindings(b: Dml<Binding>)

  /** `refused` stands for failures outside these four tables (locks, other tables' keys). */
  datatype Event = Event(scope: Scope, stmt: Statement, refused: bool)

  datatype Outcome = Answer(text: string) | Done | Error

  /** The rows an UPDATE or DELETE reaches: visible ones that satisfy its filter. */
  function Hits<Row>(table: map<Uuid, Row>, visible: (Uuid, Row) -> bool, view: Db, filter: (Db, Uuid, Row) -> bool): set<Uuid> {
    set id | id in table && visible(id, table[id]) && filter(view, id, table[id])
  }

  /** Distinct added ids, none of them held by a row the update does not touch. */
  predicate KeysFree<Row>(table: map<Uuid, Row>, hits: set<Uuid>, view: Db, newId: (Db, Uuid, Row) -> Uuid)
    requires hits <= table.Keys
  {
    && (forall i <- hits, j <- hits | newId(view, i, table[i]) == newId(view, j, table[j]) :: i == j)
    && (forall i <- hits :: newId(view, i, table[i]) !in table.Keys - hits)
  }

  /** The updated images of the rows an UPDATE reaches, under their new ids. */
  function Images<Row>(table: map<Uuid, Row>, hits: set<Uuid>, view: Db,
                       newId: (Db, Uuid, Row) -> Uuid, newRow: (Db, Uuid, Row) -> Row): map<Uuid, Row>
    requires hits <= table.Keys && KeysFree(table, hits, view, newId)
  {
    map id | id in hits :: newId(view, id, table[id]) := newRow(view, id, table[id])
  }

  /** Every row satisfies the policy's WITH CHECK. */
  predicate AllPass<Row>(rows: map<Uuid, Row>, visible: (Uuid, Row) -> bool) {
    forall id <- rows :: visible(id, rows[id])
  }

  /** The table after a change under a policy whose USING and WITH CHECK are both `visible`. */
  function Apply<Row>(table: map<Uuid, Row>, visible: (Uuid, Row) -> bool, view: Db, dml: Dml<Row>): Option<map<Uuid, Row>> {
    match dml
    case Insert(rows) =>
      var added := rows(view);
      if AllPass(added, visible) && added.Keys !! table.Keys then Some(table + added) else None
    case Update(filter, newId, newRow) =>
      var hits := Hits(table, visible, view, filter);
      if KeysFree(table, hits, view, newId) && AllPass(Images(table, hits, view, newId, newRow), visible)
      then Some((table - hits) + Images(table, hits, view, newId, newRow))
      else None
    case Delete(filter) =>
      Some(table - Hits(table, visible, view, filter))
  }

  /** The database a statement produces before its constraints are checked. */
  function Effect(db: Db, scope: Scope, stmt: Statement): Option<Db>
    requires !stmt.Select?
  {
    var view := View(db, scope);
    match stmt
    case OnWorkspaces(d) =>
      var t := Apply(db.workspaces, WorkspacePolicy(scope), view, d);
      if t.Some? then Some(db.(workspaces := t.value)) else None
    case OnEnvironments(d) =>
      var t := Apply(db.environments, EnvironmentPolicy(db, scope), view, d);
      if t.Some? then Some(db.(environments := t.value)) else None
    case OnInstances(d) =>
      var t := Apply(db.instances, InstancePolicy(scope), view, d);
      if t.None? then None else
      // ON DELETE CASCADE: the bindings of deleted instances go with them.
      Some(db.(
        instances := t.value,
        bindings := if d.Delete? then db.bindings - (db.instances.Keys - t.value.Keys) else db.bindings))
    case OnBindings(d) =>
      var t := Apply(db.bindings, BindingPolicy(db, scope), view, d);
      if t.Some? then Some(db.(bindings := t.value)) else None
  }

  /** One statement: all of its effect, or an error and none of it. */
  function Exec(db: Db, ev: Event): (Db, Outcome) {
    if ev.refused || ev.scope.NotUuid? then (db, Error)
    else if ev.stmt.Select? then (db, Answer(ev.stmt.query(View(db, ev.scope))))
    else
      var next := Effect(db, ev.scope, ev.stmt);
      if next.Some? && Consistent(next.value) then (next.value, Done) else (db, Error)
  }

  /** The four tables as mutable state, with rollback when a constraint fails. */
  class Database {
    var workspaces: map<Uuid, Workspace>
    var environments: map<Uuid, Environment>
    var instances: map<Uuid, Instance>
    var bindings: map<Uuid, Binding>

    function Snapshot(): Db
      reads this
    {
      Db(workspaces, environments, instances, bindings)
    }

    method Execute(ev: Event) returns (out: Outcome)
      modifies this
      ensures (Snapshot(), out) == Exec(old(Snapshot()), ev)
    {
      if ev.refused || ev.scope.NotUuid? {
        return Error;
      }
      var before := Snapshot();
      var view := View(before, ev.scope);
      out := Error;
      match ev.stmt {
      case Select(query) =>
        return Answer(query(view));
      case OnWorkspaces(d) =>
        var t := Apply(workspaces, WorkspacePolicy(ev.scope), view, d);
        if t.Some? {
          workspaces, out := t.value, Done;
        }
      case OnEnvironments(d) =>
        var t := Apply(environments, EnvironmentPolicy(before, ev.scope), view, d);
        if t.Some? {
          environments, out := t.value, Done;
        }
      case OnInstances(d) =>
        var t := Apply(instances, InstancePolicy(ev.scope), view, d);
        if t.Some? {
          if d.Delete? {
            bindings := bindings - (instances.Keys - t.value.Keys);
          }
          instances, out := t.value, Done;
        }
      case OnBindings(d) =>
        var t := Apply(bindings, BindingPolicy(before, ev.scope), view, d);
        if t.Some? {
          bindings, out := t.value, Done;
        }
      }
      if out == Done && !Consistent(Snapshot()) {
        workspaces, environments := before.workspaces, before.environments;
        instances, bindings := before.instances, before.bindings;
        out := Error;
      }
    }
  }
}
