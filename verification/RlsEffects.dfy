/** What a statement does to the four tables, when it is refused, and what a query is answered. */
module RlsEffects {
  import opened Rls
  import opened Text
  import opened RlsIsolation
  import opened RlsRuns

  // ---------------------------------------------------------------- the tables a statement leaves behind

  /** Every row the change does not take, every row it puts, and no other. */
  ghost predicate TableAfter<Row(!new)>(t: map<Uuid, Row>, t': map<Uuid, Row>, visible: (Uuid, Row) -> bool, view: Db, dml: Dml<Row>) {
    forall id, row :: Holds(t', id, row) <==> (Holds(t, id, row) && !Taken(t, visible, view, dml, id)) || Put(t, visible, view, dml, id, row)
  }

  /** Bindings go with the instances a delete takes, and change by nothing else. */
  ghost predicate Cascaded(db: Db, db': Db, scope: Scope, dml: Dml<Instance>) {
    forall id, b :: Holds(db'.bindings, id, b)
      <==> Holds(db.bindings, id, b) && !(dml.Delete? && Taken(db.instances, InstancePolicy(scope), View(db, scope), dml, id))
  }

  /** `db'` is `db` with the statement's change made to its one table, and nothing else changed but by cascade. */
  ghost predicate Changed(db: Db, db': Db, ev: Event) {
    var view := View(db, ev.scope);
    match ev.stmt
    case Select(_) => false
    case OnWorkspaces(d) =>
      && TableAfter(db.workspaces, db'.workspaces, WorkspacePolicy(ev.scope), view, d)
      && db'.environments == db.environments && db'.instances == db.instances && db'.bindings == db.bindings
    case OnEnvironments(d) =>
      && TableAfter(db.environments, db'.environments, EnvironmentPolicy(db, ev.scope), view, d)
      && db'.workspaces == db.workspaces && db'.instances == db.instances && db'.bindings == db.bindings
    case OnInstances(d) =>
      && TableAfter(db.instances, db'.instances, InstancePolicy(ev.scope), view, d)
      && Cascaded(db, db', ev.scope, d)
      && db'.workspaces == db.workspaces && db'.environments == db.environments
    case OnBindings(d) =>
      && TableAfter(db.bindings, db'.bindings, BindingPolicy(db, ev.scope), view, d)
      && db'.workspaces == db.workspaces && db'.environments == db.environments && db'.instances == db.instances
  }

  /** No two rows of the result share a primary key, and every row put there passes WITH CHECK. */
  ghost predicate Admitted<Row(!new)>(t: map<Uuid, Row>, visible: (Uuid, Row) -> bool, view: Db, dml: Dml<Row>) {
    && !Clashes(t, visible, view, dml)
    && forall id, row :: Put(t, visible, view, dml, id, row) ==> visible(id, row)
  }

  ghost predicate StatementAdmitted(db: Db, ev: Event) {
    var view := View(db, ev.scope);
    match ev.stmt
    case Select(_) => false
    case OnWorkspaces(d) => Admitted(db.workspaces, WorkspacePolicy(ev.scope), view, d)
    case OnEnvironments(d) => Admitted(db.environments, EnvironmentPolicy(db, ev.scope), view, d)
    case OnInstances(d) => Admitted(db.instances, InstancePolicy(ev.scope), view, d)
    case OnBindings(d) => Admitted(db.bindings, BindingPolicy(db, ev.scope), view, d)
  }

  // ---------------------------------------------------------------- one table

  /** A table is determined by the rows it holds. */
  lemma SameRows<Row>(a: map<Uuid, Row>, b: map<Uuid, Row>)
    requires forall id, row :: Holds(a, id, row) <==> Holds(b, id, row)
    ensures a == b
  {
    forall id ensures (id in a <==> id in b) && (id in a ==> a[id] == b[id]) {
      if id in a {
        assert Holds(a, id, a[id]);
      }
      if id in b {
        assert Holds(b, id, b[id]);
      }
    }
  }

  /** The change determines the table. */
  lemma OneTableAfter<Row(!new)>(t: map<Uuid, Row>, a: map<Uuid, Row>, b: map<Uuid, Row>,
                                 visible: (Uuid, Row) -> bool, view: Db, dml: Dml<Row>)
    requires TableAfter(t, a, visible, view, dml) && TableAfter(t, b, visible, view, dml)
    ensures a == b
  {
    SameRows(a, b);
  }

  lemma AppliedIff<Row(!new)>(t: map<Uuid, Row>, t': map<Uuid, Row>, visible: (Uuid, Row) -> bool, view: Db, dml: Dml<Row>)
    ensures Apply(t, visible, view, dml) == Some(t') <==> Admitted(t, visible, view, dml) && TableAfter(t, t', visible, view, dml)
  {
    RefusedIff(t, visible, view, dml);
    if Apply(t, visible, view, dml).Some? {
      var after := Apply(t, visible, view, dml).value;
      ChangeMeans(t, visible, view, dml);
      assert TableAfter(t, after, visible, view, dml);
      if TableAfter(t, t', visible, view, dml) {
        OneTableAfter(t, t', after, visible, view, dml);
      }
    }
  }

  // ---------------------------------------------------------------- each statement

  lemma WorkspacesEffect(db: Db, db': Db, ev: Event, d: Dml<Workspace>)
    requires ev.stmt == OnWorkspaces(d)
    ensures Effect(db, ev.scope, ev.stmt) == Some(db') <==> StatementAdmitted(db, ev) && Changed(db, db', ev)
  {
    AppliedIff(db.workspaces, db'.workspaces, WorkspacePolicy(ev.scope), View(db, ev.scope), d);
  }

  lemma EnvironmentsEffect(db: Db, db': Db, ev: Event, d: Dml<Environment>)
    requires ev.stmt == OnEnvironments(d)
    ensures Effect(db, ev.scope, ev.stmt) == Some(db') <==> StatementAdmitted(db, ev) && Changed(db, db', ev)
  {
    AppliedIff(db.environments, db'.environments, EnvironmentPolicy(db, ev.scope), View(db, ev.scope), d);
  }

  lemma BindingsEffect(db: Db, db': Db, ev: Event, d: Dml<Binding>)
    requires ev.stmt == OnBindings(d)
    ensures Effect(db, ev.scope, ev.stmt) == Some(db') <==> StatementAdmitted(db, ev) && Changed(db, db', ev)
  {
    AppliedIff(db.bindings, db'.bindings, BindingPolicy(db, ev.scope), View(db, ev.scope), d);
  }

  function CascadeOf(db: Db, dml: Dml<Instance>, after: map<Uuid, Instance>): map<Uuid, Binding> {
    if dml.Delete? then db.bindings - (db.instances.Keys - after.Keys) else db.bindings
  }

  lemma CascadeIff(db: Db, db': Db, scope: Scope, dml: Dml<Instance>)
    requires Apply(db.instances, InstancePolicy(scope), View(db, scope), dml) == Some(db'.instances)
    ensures db'.bindings == CascadeOf(db, dml, db'.instances) <==> Cascaded(db, db', scope, dml)
  {
    var after := CascadeOf(db, dml, db'.instances);
    forall id, b
      ensures Holds(after, id, b)
         <==> Holds(db.bindings, id, b) && !(dml.Delete? && Taken(db.instances, InstancePolicy(scope), View(db, scope), dml, id))
    {
    }
    if Cascaded(db, db', scope, dml) {
      SameRows(db'.bindings, after);
    }
  }

  lemma InstancesEffect(db: Db, db': Db, ev: Event, d: Dml<Instance>)
    requires ev.stmt == OnInstances(d)
    ensures Effect(db, ev.scope, ev.stmt) == Some(db') <==> StatementAdmitted(db, ev) && Changed(db, db', ev)
  {
    AppliedIff(db.instances, db'.instances, InstancePolicy(ev.scope), View(db, ev.scope), d);
    if Apply(db.instances, InstancePolicy(ev.scope), View(db, ev.scope), d) == Some(db'.instances) {
      CascadeIff(db, db', ev.scope, d);
    }
  }

  lemma EffectIff(db: Db, db': Db, ev: Event)
    requires !ev.stmt.Select?
    ensures Effect(db, ev.scope, ev.stmt) == Some(db') <==> StatementAdmitted(db, ev) && Changed(db, db', ev)
  {
    match ev.stmt
    case OnWorkspaces(d) => WorkspacesEffect(db, db', ev, d);
    case OnEnvironments(d) => EnvironmentsEffect(db, db', ev, d);
    case OnInstances(d) => InstancesEffect(db, db', ev, d);
    case OnBindings(d) => BindingsEffect(db, db', ev, d);
  }

  /** A statement that runs: a well-formed scope, no failure elsewhere. */
  predicate Runs(ev: Event) {
    !ev.refused && !ev.scope.NotUuid?
  }

  /**
   DONE: a statement is answered `Done`, with the database `db'`, exactly when it runs, its rows clash
   with none and pass WITH CHECK, and `db'` is the change it asks for and keeps every key.
   */
  lemma DoneIff(db: Db, db': Db, ev: Event)
    ensures Exec(db, ev) == (db', Done)
       <==> Runs(ev) && StatementAdmitted(db, ev) && Changed(db, db', ev) && Consistent(db')
  {
    if ev.stmt.Select? {
    } else {
      EffectIff(db, db', ev);
    }
  }

  /** Otherwise it is answered with an error and changes nothing; a query only where it does not run. */
  lemma ErrorIff(db: Db, ev: Event)
    ensures Exec(db, ev) == (db, Error)
       <==> !Runs(ev) || (!ev.stmt.Select?
              && !(StatementAdmitted(db, ev) && exists db' :: Changed(db, db', ev) && Consistent(db')))
  {
    DoneIff(db, Exec(db, ev).0, ev);
    if db' :| Changed(db, db', ev) && Consistent(db') {
      DoneIff(db, db', ev);
    }
  }

  /** After every statement the slugs and uids are unique within their parents, and every parent exists. */
  lemma KeysHold(db: Db, ev: Event)
    requires Consistent(db)
    ensures var db' := Exec(db, ev).0;
            && (forall i, j | i in db'.workspaces && j in db'.workspaces && i != j ::
                  (db'.workspaces[i].org, db'.workspaces[i].slug) != (db'.workspaces[j].org, db'.workspaces[j].slug))
            && (forall i, j | i in db'.environments && j in db'.environments && i != j ::
                  (db'.environments[i].workspace, db'.environments[i].slug)
                  != (db'.environments[j].workspace, db'.environments[j].slug))
            && (forall i, j | i in db'.instances && j in db'.instances && i != j ::
                  (db'.instances[i].workspace, db'.instances[i].uid) != (db'.instances[j].workspace, db'.instances[j].uid))
            && (forall i | i in db'.environments :: db'.environments[i].workspace in db'.workspaces)
            && (forall i | i in db'.instances ::
                  db'.instances[i].workspace in db'.workspaces && db'.instances[i].environment in db'.environments)
            && db'.bindings.Keys <= db'.instances.Keys
  {
    ExecConsistent(db, ev);
  }

  // ---------------------------------------------------------------- queries

  /** The rows an org owns, children through their parent. */
  ghost function Owned(db: Db, org: Uuid): Db
    requires ForeignKeys(db)
  {
    Db(
      map id | id in db.workspaces && db.workspaces[id].org == org :: db.workspaces[id],
      map id | id in db.environments && EnvironmentOwner(db, id) == org :: db.environments[id],
      map id | id in db.instances && db.instances[id].org == org :: db.instances[id],
      map id | id in db.bindings && BindingOwner(db, id) == org :: db.bindings[id])
  }

  /** Two parts of one table with the same ids are the same. */
  lemma PartsOf<Row>(t: map<Uuid, Row>, a: map<Uuid, Row>, b: map<Uuid, Row>)
    requires forall id :: id in a ==> id in t && a[id] == t[id]
    requires forall id :: id in b ==> id in t && b[id] == t[id]
    requires forall id :: id in t ==> (id in a <==> id in b)
    ensures a == b
  {
  }

  lemma ViewIsOwned(db: Db, org: Uuid)
    requires ForeignKeys(db)
    ensures View(db, Org(org)) == Owned(db, org)
  {
    EveryRowHasOneOwner(db, org);
    var view, owned := View(db, Org(org)), Owned(db, org);
    PartsOf(db.workspaces, view.workspaces, owned.workspaces);
    PartsOf(db.environments, view.environments, owned.environments);
    PartsOf(db.instances, view.instances, owned.instances);
    PartsOf(db.bindings, view.bindings, owned.bindings);
  }

  /** A query is answered on exactly the rows its org owns, without a scope on none, and changes nothing. */
  lemma QueryAnswer(db: Db, ev: Event)
    requires ForeignKeys(db) && Runs(ev) && ev.stmt.Select?
    ensures Exec(db, ev) == (db, Answer(ev.stmt.query(if ev.scope.Org? then Owned(db, ev.scope.id) else NO_ROWS)))
  {
    if ev.scope.Org? {
      ViewIsOwned(db, ev.scope.id);
    } else {
      NothingVisible(db);
    }
  }

  // ---------------------------------------------------------------- one insert

  /** Org 7 adds environment 2 to its workspace 1: the row is stored. */
  lemma EnvironmentStored(db: Db, ev: Event, e: Environment)
    requires db == Db(map[1 := Workspace(7, "w", "")], map[], map[], map[])
    requires e.workspace == 1 && ev == Event(Org(7), OnEnvironments(Insert(_ => map[2 := e])), false)
    ensures Exec(db, ev) == (db.(environments := map[2 := e]), Done)
  {
    var d := Insert(_ => map[2 := e]);
    var visible := EnvironmentPolicy(db, Org(7));
    assert visible(2, e) by {
      assert 1 in db.workspaces;
    }
    assert ev.stmt.e.rows(View(db, Org(7))) == map[2 := e];
    assert db.environments + map[2 := e] == map[2 := e];
  }
}
