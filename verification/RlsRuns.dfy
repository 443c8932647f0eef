/** The tenancy theorems: one statement, then whole runs of interleaved sessions. */
module RlsRuns {
  import opened Rls
  import opened Text
  import opened RlsIsolation

  // ---------------------------------------------------------------- one statement

  /** Rows hidden from the session before the statement are untouched, in all four tables. */
  ghost predicate HiddenFrame(db: Db, db': Db, scope: Scope) {
    && SameHidden(db.workspaces, db'.workspaces, WorkspacePolicy(scope))
    && SameHidden(db.environments, db'.environments, EnvironmentPolicy(db, scope))
    && SameHidden(db.instances, db'.instances, InstancePolicy(scope))
    && SameHidden(db.bindings, db'.bindings, BindingPolicy(db, scope))
  }

  /** The cascade only reaches bindings of instances the session could see. */
  lemma CascadeHidden(db: Db, scope: Scope, d: Dml<Instance>)
    requires Apply(db.instances, InstancePolicy(scope), View(db, scope), d).Some?
    ensures d.Delete? ==>
      var gone := db.instances.Keys - Apply(db.instances, InstancePolicy(scope), View(db, scope), d).value.Keys;
      SameHidden(db.bindings, db.bindings - gone, BindingPolicy(db, scope))
  {
  }

  lemma WorkspacesHidden(db: Db, ev: Event, d: Dml<Workspace>)
    requires ev.stmt == OnWorkspaces(d) && Exec(db, ev).1.Done?
    ensures HiddenFrame(db, Exec(db, ev).0, ev.scope)
  {
    HiddenRowsKept(db.workspaces, WorkspacePolicy(ev.scope), View(db, ev.scope), d);
  }

  lemma EnvironmentsHidden(db: Db, ev: Event, d: Dml<Environment>)
    requires ev.stmt == OnEnvironments(d) && Exec(db, ev).1.Done?
    ensures HiddenFrame(db, Exec(db, ev).0, ev.scope)
  {
    HiddenRowsKept(db.environments, EnvironmentPolicy(db, ev.scope), View(db, ev.scope), d);
  }

  lemma InstancesHidden(db: Db, ev: Event, d: Dml<Instance>)
    requires ev.stmt == OnInstances(d) && Exec(db, ev).1.Done?
    ensures HiddenFrame(db, Exec(db, ev).0, ev.scope)
  {
    HiddenRowsKept(db.instances, InstancePolicy(ev.scope), View(db, ev.scope), d);
    CascadeHidden(db, ev.scope, d);
  }

  lemma BindingsHidden(db: Db, ev: Event, d: Dml<Binding>)
    requires ev.stmt == OnBindings(d) && Exec(db, ev).1.Done?
    ensures HiddenFrame(db, Exec(db, ev).0, ev.scope)
  {
    HiddenRowsKept(db.bindings, BindingPolicy(db, ev.scope), View(db, ev.scope), d);
  }

  lemma ExecHidden(db: Db, ev: Event)
    ensures HiddenFrame(db, Exec(db, ev).0, ev.scope)
  {
    if Exec(db, ev).1.Done? {
      match ev.stmt
      case OnWorkspaces(d) => WorkspacesHidden(db, ev, d);
      case OnEnvironments(d) => EnvironmentsHidden(db, ev, d);
      case OnInstances(d) => InstancesHidden(db, ev, d);
      case OnBindings(d) => BindingsHidden(db, ev, d);
    }
  }

  /** Rows one policy shows and another hides are kept when all that the other hides is. */
  lemma FrameRows<Row>(t: map<Uuid, Row>, t': map<Uuid, Row>, writer: (Uuid, Row) -> bool, reader: (Uuid, Row) -> bool)
    requires SameHidden(t, t', writer) && forall id, row :: reader(id, row) ==> !writer(id, row)
    ensures Rows(t', reader) == Rows(t, reader)
  {
  }

  lemma FrameWorkspaces(db: Db, db': Db, scope: Scope, org: Uuid)
    requires scope != Org(org) && HiddenFrame(db, db', scope)
    ensures View(db', Org(org)).workspaces == View(db, Org(org)).workspaces
  {
    FrameRows(db.workspaces, db'.workspaces, WorkspacePolicy(scope), WorkspacePolicy(Org(org)));
  }

  lemma FrameEnvironments(db: Db, db': Db, scope: Scope, org: Uuid)
    requires scope != Org(org) && HiddenFrame(db, db', scope)
    ensures View(db', Org(org)).environments == View(db, Org(org)).environments
  {
    FrameWorkspaces(db, db', scope, org);
    forall id, e: Environment | EnvironmentPolicy(db, Org(org))(id, e)
      ensures !EnvironmentPolicy(db, scope)(id, e)
    {
    }
    assert forall id, e: Environment ::
      EnvironmentPolicy(db, Org(org))(id, e) == EnvironmentPolicy(db', Org(org))(id, e);
  }

  lemma FrameInstances(db: Db, db': Db, scope: Scope, org: Uuid)
    requires scope != Org(org) && HiddenFrame(db, db', scope)
    ensures View(db', Org(org)).instances == View(db, Org(org)).instances
  {
    FrameRows(db.instances, db'.instances, InstancePolicy(scope), InstancePolicy(Org(org)));
  }

  lemma FrameBindings(db: Db, db': Db, scope: Scope, org: Uuid)
    requires scope != Org(org) && HiddenFrame(db, db', scope)
    ensures View(db', Org(org)).bindings == View(db, Org(org)).bindings
  {
    FrameInstances(db, db', scope, org);
    forall id, b: Binding | BindingPolicy(db, Org(org))(id, b)
      ensures !BindingPolicy(db, scope)(id, b)
    {
    }
    assert forall id, b: Binding ::
      BindingPolicy(db, Org(org))(id, b) == BindingPolicy(db', Org(org))(id, b);
  }

  /** FRAME: a statement under any other scope leaves every org's rows exactly as they were. */
  lemma StatementFrame(db: Db, ev: Event, org: Uuid)
    requires ev.scope != Org(org)
    ensures View(Exec(db, ev).0, Org(org)) == View(db, Org(org))
  {
    var db' := Exec(db, ev).0;
    ExecHidden(db, ev);
    FrameWorkspaces(db, db', ev.scope, org);
    FrameEnvironments(db, db', ev.scope, org);
    FrameInstances(db, db', ev.scope, org);
    FrameBindings(db, db', ev.scope, org);
  }

  lemma ExecConsistent(db: Db, ev: Event)
    requires Consistent(db)
    ensures Consistent(Exec(db, ev).0)
  {
  }

  function WithoutInstances(db: Db, gone: set<Uuid>): Db {
    db.(instances := db.instances - gone, bindings := db.bindings - gone)
  }

  lemma StillConsistent(db: Db, gone: set<Uuid>)
    requires Consistent(db)
    ensures Consistent(WithoutInstances(db, gone))
  {
  }

  lemma KeysRemoved<Row>(table: map<Uuid, Row>, gone: set<Uuid>)
    requires gone <= table.Keys
    ensures table.Keys - (table - gone).Keys == gone
  {
  }

  /**
   CASCADE: deleting instances is never blocked by their bindings; each binding goes exactly when
   its instance does, and the instances that go are the visible ones the filter selects.
   */
  lemma InstanceDeleteCascades(db: Db, ev: Event, filter: (Db, Uuid, Instance) -> bool)
    requires Consistent(db) && !ev.refused && !ev.scope.NotUuid? && ev.stmt == OnInstances(Delete(filter))
    ensures var (db', out) := Exec(db, ev);
            && out == Done
            && (forall id <- db.instances :: id !in db'.instances
                  <==> InstancePolicy(ev.scope)(id, db.instances[id]) && filter(View(db, ev.scope), id, db.instances[id]))
            && (forall id <- db.bindings :: id in db'.bindings <==> id in db'.instances)
            && (forall id <- db'.bindings :: id in db.bindings && db'.bindings[id] == db.bindings[id])
  {
    var gone := Hits(db.instances, InstancePolicy(ev.scope), View(db, ev.scope), filter);
    KeysRemoved(db.instances, gone);
    StillConsistent(db, gone);
    assert Effect(db, ev.scope, ev.stmt) == Some(WithoutInstances(db, gone));
  }

  // ---------------------------------------------------------------- ownership

  ghost function EnvironmentOwner(db: Db, id: Uuid): Uuid
    requires ForeignKeys(db) && id in db.environments
  {
    db.workspaces[db.environments[id].workspace].org
  }

  ghost function BindingOwner(db: Db, id: Uuid): Uuid
    requires ForeignKeys(db) && id in db.bindings
  {
    db.instances[id].org
  }

  /** Every row of a consistent database is in its owner's view and in no other org's. */
  lemma EveryRowHasOneOwner(db: Db, org: Uuid)
    requires ForeignKeys(db)
    ensures forall id <- db.workspaces :: id in View(db, Org(org)).workspaces <==> db.workspaces[id].org == org
    ensures forall id <- db.environments :: id in View(db, Org(org)).environments <==> EnvironmentOwner(db, id) == org
    ensures forall id <- db.instances :: id in View(db, Org(org)).instances <==> db.instances[id].org == org
    ensures forall id <- db.bindings :: id in View(db, Org(org)).bindings <==> BindingOwner(db, id) == org
  {
  }

  /** Parent rows that survive a statement keep their org. */
  ghost predicate OrgsKept(db: Db, db': Db) {
    && (forall id :: id in db.workspaces && id in db'.workspaces ==> db'.workspaces[id].org == db.workspaces[id].org)
    && (forall id :: id in db.instances && id in db'.instances ==> db'.instances[id].org == db.instances[id].org)
  }

  lemma HiddenFrameKeepsOrgs(db: Db, db': Db, scope: Scope)
    requires HiddenFrame(db, db', scope)
    ensures OrgsKept(db, db')
  {
    forall id | id in db.workspaces && id in db'.workspaces
      ensures db'.workspaces[id].org == db.workspaces[id].org
    {
      if WorkspacePolicy(scope)(id, db.workspaces[id]) {
        assert WorkspacePolicy(scope)(id, db'.workspaces[id]);
      }
    }
    forall id | id in db.instances && id in db'.instances
      ensures db'.instances[id].org == db.instances[id].org
    {
      if InstancePolicy(scope)(id, db.instances[id]) {
        assert InstancePolicy(scope)(id, db'.instances[id]);
      }
    }
  }

  lemma EnvironmentOwnerKept(db: Db, db': Db, scope: Scope, id: Uuid)
    requires ForeignKeys(db) && ForeignKeys(db') && HiddenFrame(db, db', scope) && OrgsKept(db, db')
    requires id in db.environments && id in db'.environments
    ensures EnvironmentOwner(db', id) == EnvironmentOwner(db, id)
    ensures db'.environments[id].workspace != db.environments[id].workspace ==> scope == Org(EnvironmentOwner(db, id))
  {
    if EnvironmentPolicy(db, scope)(id, db.environments[id]) {
      assert EnvironmentPolicy(db, scope)(id, db'.environments[id]);
    }
  }

  /**
   OWNERSHIP: no statement moves a surviving row to another org. An environment whose parent
   changes was re-parented by its own org, between two of that org's workspaces.
   */
  lemma OwnersKept(db: Db, ev: Event)
    requires Consistent(db)
    ensures var db' := Exec(db, ev).0;
            && Consistent(db')
            && OrgsKept(db, db')
            && (forall id :: id in db.environments && id in db'.environments ==>
                  EnvironmentOwner(db', id) == EnvironmentOwner(db, id))
            && (forall id :: id in db.bindings && id in db'.bindings ==>
                  BindingOwner(db', id) == BindingOwner(db, id))
            && (forall id | id in db.environments && id in db'.environments ::
                  db'.environments[id].workspace != db.environments[id].workspace ==>
                  ev.scope == Org(EnvironmentOwner(db, id)))
  {
    var db' := Exec(db, ev).0;
    ExecHidden(db, ev);
    HiddenFrameKeepsOrgs(db, db', ev.scope);
    forall id | id in db.environments && id in db'.environments
      ensures EnvironmentOwner(db', id) == EnvironmentOwner(db, id)
      ensures db'.environments[id].workspace != db.environments[id].workspace ==> ev.scope == Org(EnvironmentOwner(db, id))
    {
      EnvironmentOwnerKept(db, db', ev.scope, id);
    }
  }

  // ---------------------------------------------------------------- no scope

  const NO_ROWS := Db(map[], map[], map[], map[])

  lemma NothingVisible(db: Db)
    ensures View(db, Unset) == NO_ROWS
    ensures forall id, e: Environment :: !EnvironmentPolicy(db, Unset)(id, e)
    ensures forall id, b: Binding :: !BindingPolicy(db, Unset)(id, b)
  {
  }

  /** Whether a change writes no row when it can see none. */
  ghost predicate Idle<Row>(dml: Dml<Row>) {
    dml.Insert? ==> dml.rows(NO_ROWS) == map[]
  }

  ghost predicate IdleStatement(stmt: Statement) {
    match stmt
    case Select(_) => true
    case OnWorkspaces(d) => Idle(d)
    case OnEnvironments(d) => Idle(d)
    case OnInstances(d) => Idle(d)
    case OnBindings(d) => Idle(d)
  }

  lemma NoneAdded<Row>(table: map<Uuid, Row>, visible: (Uuid, Row) -> bool, added: map<Uuid, Row>)
    requires forall id, row :: !visible(id, row)
    ensures AllPass(added, visible) <==> added == map[]
    ensures added == map[] ==> added.Keys !! table.Keys && table + added == table
  {
    if AllPass(added, visible) {
      assert added.Keys == {};
    }
  }

  lemma NoneHit<Row>(table: map<Uuid, Row>, visible: (Uuid, Row) -> bool, filter: (Db, Uuid, Row) -> bool)
    requires forall id, row :: !visible(id, row)
    ensures Hits(table, visible, NO_ROWS, filter) == {}
    ensures table - {} == table
    ensures forall added: map<Uuid, Row> :: added.Keys == {} ==> (table - {}) + added == table
  {
  }

  /** Under a policy that admits no row, a change that would write one is refused and any other does nothing. */
  lemma EmptyChange<Row>(table: map<Uuid, Row>, visible: (Uuid, Row) -> bool, dml: Dml<Row>)
    requires forall id, row :: !visible(id, row)
    ensures Apply(table, visible, NO_ROWS, dml) == if Idle(dml) then Some(table) else None
  {
    match dml
    case Insert(rows) => NoneAdded(table, visible, rows(NO_ROWS));
    case Update(filter, newId, newRow) => NoneHit(table, visible, filter);
    case Delete(filter) => NoneHit(table, visible, filter);
  }

  lemma UnscopedEffect(db: Db, stmt: Statement)
    requires !stmt.Select?
    ensures Effect(db, Unset, stmt) == if IdleStatement(stmt) then Some(db) else None
  {
    NothingVisible(db);
    match stmt
    case OnWorkspaces(d) => EmptyChange(db.workspaces, WorkspacePolicy(Unset), d);
    case OnEnvironments(d) => EmptyChange(db.environments, EnvironmentPolicy(db, Unset), d);
    case OnInstances(d) =>
      EmptyChange(db.instances, InstancePolicy(Unset), d);
      assert db.bindings - (db.instances.Keys - db.instances.Keys) == db.bindings;
    case OnBindings(d) => EmptyChange(db.bindings, BindingPolicy(db, Unset), d);
  }

  /** FAIL CLOSED: without an org scope nothing is read and nothing changes. */
  lemma NoScopeNoEffect(db: Db, other: Db, ev: Event)
    requires !ev.scope.Org? && Consistent(db) && Consistent(other)
    ensures Exec(db, ev).0 == db
    ensures Exec(db, ev).1 == Exec(other, ev).1
  {
    if ev.scope.Unset? {
      NothingVisible(db);
      NothingVisible(other);
      if !ev.stmt.Select? {
        UnscopedEffect(db, ev.stmt);
        UnscopedEffect(other, ev.stmt);
      }
    }
  }

  // ---------------------------------------------------------------- confidentiality of one statement

  lemma EnvironmentViewKept(db: Db, db': Db, scope: Scope)
    requires db'.environments == db.environments && ForeignKeys(db) && ForeignKeys(db') && OrgsKept(db, db')
    ensures View(db', scope).environments == View(db, scope).environments
  {
  }

  lemma SameBindingVerdict(db: Db, db': Db, scope: Scope, id: Uuid)
    requires OrgsKept(db, db') && id in db.instances && id in db'.instances && id in db'.bindings
    ensures BindingPolicy(db', scope)(id, db'.bindings[id]) == BindingPolicy(db, scope)(id, db'.bindings[id])
  {
  }

  lemma RowsOfFewer<Row>(t: map<Uuid, Row>, t': map<Uuid, Row>, gone: set<Uuid>, vis: (Uuid, Row) -> bool, vis': (Uuid, Row) -> bool)
    requires t' == t - gone && forall id <- t' :: vis'(id, t'[id]) == vis(id, t'[id])
    ensures Rows(t', vis') == Rows(t, vis) - gone
  {
  }

  lemma BindingViewKept(db: Db, db': Db, scope: Scope, gone: set<Uuid>)
    requires db'.bindings == db.bindings - gone && ForeignKeys(db) && ForeignKeys(db') && OrgsKept(db, db')
    ensures View(db', scope).bindings == View(db, scope).bindings - gone
  {
    forall id | id in db'.bindings
      ensures BindingPolicy(db', scope)(id, db'.bindings[id]) == BindingPolicy(db, scope)(id, db'.bindings[id])
    {
      SameBindingVerdict(db, db', scope, id);
    }
    RowsOfFewer(db.bindings, db'.bindings, gone, BindingPolicy(db, scope), BindingPolicy(db', scope));
  }

  lemma StepOrgsKept(db: Db, ev: Event)
    ensures OrgsKept(db, Exec(db, ev).0)
  {
    ExecHidden(db, ev);
    HiddenFrameKeepsOrgs(db, Exec(db, ev).0, ev.scope);
  }

  ghost predicate BothDone(db1: Db, db2: Db, ev: Event) {
    && Consistent(db1) && Consistent(db2)
    && View(db1, ev.scope) == View(db2, ev.scope)
    && Exec(db1, ev).1.Done? && Exec(db2, ev).1.Done?
    && OrgsKept(db1, Exec(db1, ev).0) && OrgsKept(db2, Exec(db2, ev).0)
  }

  lemma WorkspacesConfidential(db1: Db, db2: Db, ev: Event, d: Dml<Workspace>)
    requires BothDone(db1, db2, ev) && ev.stmt == OnWorkspaces(d)
    ensures View(Exec(db1, ev).0, ev.scope) == View(Exec(db2, ev).0, ev.scope)
  {
    var vis := WorkspacePolicy(ev.scope);
    VisibleRowsDetermined(db1.workspaces, db2.workspaces, vis, vis, View(db1, ev.scope), d);
    EnvironmentViewKept(db1, Exec(db1, ev).0, ev.scope);
    EnvironmentViewKept(db2, Exec(db2, ev).0, ev.scope);
  }

  lemma EnvironmentsConfidential(db1: Db, db2: Db, ev: Event, d: Dml<Environment>)
    requires BothDone(db1, db2, ev) && ev.stmt == OnEnvironments(d)
    ensures View(Exec(db1, ev).0, ev.scope) == View(Exec(db2, ev).0, ev.scope)
  {
    var vis1, vis2 := EnvironmentPolicy(db1, ev.scope), EnvironmentPolicy(db2, ev.scope);
    VisibleRowsDetermined(db1.environments, db2.environments, vis1, vis2, View(db1, ev.scope), d);
    var db1', db2' := Exec(db1, ev).0, Exec(db2, ev).0;
    SamePolicySameRows(db1'.environments, vis1, EnvironmentPolicy(db1', ev.scope));
    SamePolicySameRows(db2'.environments, vis2, EnvironmentPolicy(db2', ev.scope));
  }

  lemma NotAboveInstances(db: Db, ev: Event, d: Dml<Instance>)
    requires ev.stmt == OnInstances(d)
    ensures Exec(db, ev).0.workspaces == db.workspaces && Exec(db, ev).0.environments == db.environments
  {
  }

  lemma SameEnvironments(db: Db, db': Db, scope: Scope)
    requires db'.environments == db.environments && db'.workspaces == db.workspaces
    ensures View(db', scope).environments == View(db, scope).environments
  {
    SamePolicySameRows(db.environments, EnvironmentPolicy(db, scope), EnvironmentPolicy(db', scope));
  }

  lemma SameBelowWorkspaces(db1: Db, db1': Db, db2: Db, db2': Db, scope: Scope)
    requires View(db1, scope) == View(db2, scope)
    requires View(db1', scope).instances == View(db2', scope).instances
    requires View(db1', scope).bindings == View(db2', scope).bindings
    requires db1'.workspaces == db1.workspaces && db1'.environments == db1.environments
    requires db2'.workspaces == db2.workspaces && db2'.environments == db2.environments
    ensures View(db1', scope) == View(db2', scope)
  {
    SameEnvironments(db1, db1', scope);
    SameEnvironments(db2, db2', scope);
  }

  lemma DeletedBindings(db: Db, ev: Event, d: Dml<Instance>, gone: set<Uuid>)
    requires ev.stmt == OnInstances(d) && d.Delete? && Exec(db, ev).1.Done?
    requires gone == Hits(db.instances, InstancePolicy(ev.scope), View(db, ev.scope), d.filter)
    ensures Exec(db, ev).0.bindings == db.bindings - gone
  {
    KeysRemoved(db.instances, gone);
  }

  lemma CascadedBindings(db: Db, ev: Event, d: Dml<Instance>, gone: set<Uuid>)
    requires ev.stmt == OnInstances(d) && Exec(db, ev).1.Done?
    requires gone == if d.Delete? then Hits(db.instances, InstancePolicy(ev.scope), View(db, ev.scope), d.filter) else {}
    ensures Exec(db, ev).0.bindings == db.bindings - gone
  {
    if d.Delete? {
      DeletedBindings(db, ev, d, gone);
    } else {
      assert db.bindings - {} == db.bindings;
    }
  }

  lemma BindingsAfterInstances(db: Db, ev: Event, d: Dml<Instance>, gone: set<Uuid>)
    requires Consistent(db) && ev.stmt == OnInstances(d) && Exec(db, ev).1.Done? && OrgsKept(db, Exec(db, ev).0)
    requires gone == if d.Delete? then Hits(db.instances, InstancePolicy(ev.scope), View(db, ev.scope), d.filter) else {}
    ensures View(Exec(db, ev).0, ev.scope).bindings == View(db, ev.scope).bindings - gone
  {
    CascadedBindings(db, ev, d, gone);
    ExecConsistent(db, ev);
    BindingViewKept(db, Exec(db, ev).0, ev.scope, gone);
  }

  lemma SameHits(db1: Db, db2: Db, scope: Scope, filter: (Db, Uuid, Instance) -> bool)
    requires View(db1, scope) == View(db2, scope)
    ensures Hits(db1.instances, InstancePolicy(scope), View(db1, scope), filter)
         == Hits(db2.instances, InstancePolicy(scope), View(db2, scope), filter)
  {
    var vis := InstancePolicy(scope);
    var seen1, seen2 := View(db1, scope).instances, View(db2, scope).instances;
    assert forall id :: id in seen1 <==> id in db1.instances && vis(id, db1.instances[id]);
    assert forall id :: id in seen2 <==> id in db2.instances && vis(id, db2.instances[id]);
  }

  lemma CascadeConfidential(db1: Db, db2: Db, ev: Event, d: Dml<Instance>)
    requires BothDone(db1, db2, ev) && ev.stmt == OnInstances(d)
    ensures View(Exec(db1, ev).0, ev.scope).bindings == View(Exec(db2, ev).0, ev.scope).bindings
  {
    var gone := if d.Delete? then Hits(db1.instances, InstancePolicy(ev.scope), View(db1, ev.scope), d.filter) else {};
    if d.Delete? {
      SameHits(db1, db2, ev.scope, d.filter);
    }
    BindingsAfterInstances(db1, ev, d, gone);
    BindingsAfterInstances(db2, ev, d, gone);
  }

  lemma InstancesApplied(db: Db, ev: Event, d: Dml<Instance>)
    requires ev.stmt == OnInstances(d) && Exec(db, ev).1.Done?
    ensures Apply(db.instances, InstancePolicy(ev.scope), View(db, ev.scope), d) == Some(Exec(db, ev).0.instances)
  {
  }

  lemma InstanceRowsConfidential(db1: Db, db2: Db, ev: Event, d: Dml<Instance>)
    requires BothDone(db1, db2, ev) && ev.stmt == OnInstances(d)
    ensures View(Exec(db1, ev).0, ev.scope).instances == View(Exec(db2, ev).0, ev.scope).instances
  {
    InstancesApplied(db1, ev, d);
    InstancesApplied(db2, ev, d);
    var vis := InstancePolicy(ev.scope);
    VisibleRowsDetermined(db1.instances, db2.instances, vis, vis, View(db1, ev.scope), d);
  }

  lemma InstancesConfidential(db1: Db, db2: Db, ev: Event, d: Dml<Instance>)
    requires BothDone(db1, db2, ev) && ev.stmt == OnInstances(d)
    ensures View(Exec(db1, ev).0, ev.scope) == View(Exec(db2, ev).0, ev.scope)
  {
    InstanceRowsConfidential(db1, db2, ev, d);
    CascadeConfidential(db1, db2, ev, d);
    NotAboveInstances(db1, ev, d);
    NotAboveInstances(db2, ev, d);
    SameBelowWorkspaces(db1, Exec(db1, ev).0, db2, Exec(db2, ev).0, ev.scope);
  }

  lemma OnlyBindings(db: Db, ev: Event, d: Dml<Binding>)
    requires ev.stmt == OnBindings(d)
    ensures var db' := Exec(db, ev).0;
            db'.workspaces == db.workspaces && db'.environments == db.environments && db'.instances == db.instances
  {
  }

  lemma SameWithBindings(db1: Db, db1': Db, db2: Db, db2': Db, scope: Scope)
    requires View(db1, scope) == View(db2, scope) && View(db1', scope).bindings == View(db2', scope).bindings
    requires db1'.workspaces == db1.workspaces && db1'.environments == db1.environments && db1'.instances == db1.instances
    requires db2'.workspaces == db2.workspaces && db2'.environments == db2.environments && db2'.instances == db2.instances
    ensures View(db1', scope) == View(db2', scope)
  {
    SameEnvironments(db1, db1', scope);
    SameEnvironments(db2, db2', scope);
  }

  lemma BindingsUnder(db: Db, db': Db, scope: Scope)
    requires db'.instances == db.instances
    ensures View(db', scope).bindings == Rows(db'.bindings, BindingPolicy(db, scope))
  {
    SamePolicySameRows(db'.bindings, BindingPolicy(db, scope), BindingPolicy(db', scope));
  }

  lemma BindingsApplied(db: Db, ev: Event, d: Dml<Binding>)
    requires ev.stmt == OnBindings(d) && Exec(db, ev).1.Done?
    ensures Apply(db.bindings, BindingPolicy(db, ev.scope), View(db, ev.scope), d) == Some(Exec(db, ev).0.bindings)
    ensures Exec(db, ev).0.instances == db.instances
  {
  }

  lemma BindingRowsConfidential(db1: Db, db2: Db, ev: Event, d: Dml<Binding>)
    requires BothDone(db1, db2, ev) && ev.stmt == OnBindings(d)
    ensures View(Exec(db1, ev).0, ev.scope).bindings == View(Exec(db2, ev).0, ev.scope).bindings
  {
    var vis1, vis2 := BindingPolicy(db1, ev.scope), BindingPolicy(db2, ev.scope);
    BindingsApplied(db1, ev, d);
    BindingsApplied(db2, ev, d);
    VisibleRowsDetermined(db1.bindings, db2.bindings, vis1, vis2, View(db1, ev.scope), d);
    BindingsUnder(db1, Exec(db1, ev).0, ev.scope);
    BindingsUnder(db2, Exec(db2, ev).0, ev.scope);
  }

  lemma BindingsConfidential(db1: Db, db2: Db, ev: Event, d: Dml<Binding>)
    requires BothDone(db1, db2, ev) && ev.stmt == OnBindings(d)
    ensures View(Exec(db1, ev).0, ev.scope) == View(Exec(db2, ev).0, ev.scope)
  {
    BindingRowsConfidential(db1, db2, ev, d);
    OnlyBindings(db1, ev, d);
    OnlyBindings(db2, ev, d);
    SameWithBindings(db1, Exec(db1, ev).0, db2, Exec(db2, ev).0, ev.scope);
  }

  /** The view after a successful statement is a function of the view before it. */
  lemma StatementConfidential(db1: Db, db2: Db, ev: Event)
    requires Consistent(db1) && Consistent(db2)
    requires View(db1, ev.scope) == View(db2, ev.scope)
    requires Exec(db1, ev).1.Error? == Exec(db2, ev).1.Error?
    ensures Exec(db1, ev).1 == Exec(db2, ev).1
    ensures View(Exec(db1, ev).0, ev.scope) == View(Exec(db2, ev).0, ev.scope)
  {
    if Exec(db1, ev).1.Done? {
      StepOrgsKept(db1, ev);
      StepOrgsKept(db2, ev);
      match ev.stmt
      case OnWorkspaces(d) => WorkspacesConfidential(db1, db2, ev, d);
      case OnEnvironments(d) => EnvironmentsConfidential(db1, db2, ev, d);
      case OnInstances(d) => InstancesConfidential(db1, db2, ev, d);
      case OnBindings(d) => BindingsConfidential(db1, db2, ev, d);
    }
  }

  // ---------------------------------------------------------------- runs

  ghost function Final(db: Db, evs: seq<Event>): Db
    decreases |evs|
  {
    if evs == [] then db else Final(Exec(db, evs[0]).0, evs[1..])
  }

  /** What the sessions of one org are answered in a run. */
  ghost function Answers(db: Db, evs: seq<Event>, org: Uuid): seq<Outcome>
    decreases |evs|
  {
    if evs == [] then []
    else
      var rest := Answers(Exec(db, evs[0]).0, evs[1..], org);
      if evs[0].scope == Org(org) then [Exec(db, evs[0]).1] + rest else rest
  }

  /** The statements of one org in a run. */
  ghost function Issued(evs: seq<Event>, org: Uuid): seq<Event> {
    if evs == [] then []
    else if evs[0].scope == Org(org) then [evs[0]] + Issued(evs[1..], org)
    else Issued(evs[1..], org)
  }

  ghost predicate SameFailures(a: seq<Outcome>, b: seq<Outcome>) {
    |a| == |b| && forall i :: 0 <= i < |a| ==> a[i].Error? == b[i].Error?
  }

  lemma {:induction false} RunConsistent(db: Db, evs: seq<Event>)
    requires Consistent(db)
    ensures Consistent(Final(db, evs))
    decreases |evs|
  {
    if evs == [] {
    } else {
      ExecConsistent(db, evs[0]);
      RunConsistent(Exec(db, evs[0]).0, evs[1..]);
    }
  }

  /** FRAME over a run: if no statement runs under an org's scope, its rows stay as they are. */
  lemma {:induction false} RunFrame(db: Db, evs: seq<Event>, org: Uuid)
    requires forall ev <- evs :: ev.scope != Org(org)
    ensures View(Final(db, evs), Org(org)) == View(db, Org(org))
    decreases |evs|
  {
    if evs == [] {
    } else {
      StatementFrame(db, evs[0], org);
      RunFrame(Exec(db, evs[0]).0, evs[1..], org);
    }
  }

  lemma {:induction false} BothIssue(db1: Db, evs1: seq<Event>, db2: Db, evs2: seq<Event>, org: Uuid)
    requires evs1 != [] && evs1[0].scope == Org(org)
    requires evs2 == [] || evs2[0].scope == Org(org)
    requires Issued(evs1, org) == Issued(evs2, org)
    requires SameFailures(Answers(db1, evs1, org), Answers(db2, evs2, org))
    ensures evs2 != [] && evs2[0] == evs1[0]
    ensures Issued(evs1[1..], org) == Issued(evs2[1..], org)
    ensures Exec(db1, evs1[0]).1.Error? == Exec(db2, evs1[0]).1.Error?
    ensures SameFailures(Answers(Exec(db1, evs1[0]).0, evs1[1..], org), Answers(Exec(db2, evs1[0]).0, evs2[1..], org))
  {
    assert Issued(evs1, org)[0] == evs1[0];
    assert evs2 != [];
    assert Issued(evs2, org)[0] == evs2[0];
    assert Issued(evs1, org)[1..] == Issued(evs1[1..], org);
    assert Issued(evs2, org)[1..] == Issued(evs2[1..], org);
    var a, b := Answers(db1, evs1, org), Answers(db2, evs2, org);
    assert a[0].Error? == b[0].Error?;
    assert a[1..] == Answers(Exec(db1, evs1[0]).0, evs1[1..], org);
    assert b[1..] == Answers(Exec(db2, evs1[0]).0, evs2[1..], org);
  }

  /**
   CONFIDENTIALITY over two runs: an org that starts from the same rows, issues the same
   statements and sees the same ones fail gets the same answers and ends with the same rows,
   whatever the other orgs own and do in between.
   */
  lemma {:induction false} RunsConfidential(db1: Db, evs1: seq<Event>, db2: Db, evs2: seq<Event>, org: Uuid)
    requires Consistent(db1) && Consistent(db2)
    requires View(db1, Org(org)) == View(db2, Org(org))
    requires Issued(evs1, org) == Issued(evs2, org)
    requires SameFailures(Answers(db1, evs1, org), Answers(db2, evs2, org))
    ensures Answers(db1, evs1, org) == Answers(db2, evs2, org)
    ensures View(Final(db1, evs1), Org(org)) == View(Final(db2, evs2), Org(org))
    decreases |evs1| + |evs2|
  {
    if evs1 != [] && evs1[0].scope != Org(org) {
      StatementFrame(db1, evs1[0], org);
      ExecConsistent(db1, evs1[0]);
      RunsConfidential(Exec(db1, evs1[0]).0, evs1[1..], db2, evs2, org);
    } else if evs2 != [] && evs2[0].scope != Org(org) {
      StatementFrame(db2, evs2[0], org);
      ExecConsistent(db2, evs2[0]);
      RunsConfidential(db1, evs1, Exec(db2, evs2[0]).0, evs2[1..], org);
    } else if evs1 != [] {
      BothIssue(db1, evs1, db2, evs2, org);
      StatementConfidential(db1, db2, evs1[0]);
      ExecConsistent(db1, evs1[0]);
      ExecConsistent(db2, evs1[0]);
      RunsConfidential(Exec(db1, evs1[0]).0, evs1[1..], Exec(db2, evs1[0]).0, evs2[1..], org);
    }
  }
}
