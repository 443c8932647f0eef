/** What one change does to one table under a policy, and what it cannot touch or depend on. */
module RlsIsolation {
  import opened Rls
  import opened Text

  // ---------------------------------------------------------------- one table

  /** Both tables hold the same rows outside the policy. */
  ghost predicate SameHidden<Row>(t1: map<Uuid, Row>, t2: map<Uuid, Row>, visible: (Uuid, Row) -> bool) {
    && (forall id :: id in t1 && !visible(id, t1[id]) ==> id in t2 && t2[id] == t1[id])
    && (forall id :: id in t2 && !visible(id, t2[id]) ==> id in t1 && t1[id] == t2[id])
  }

  // ---------------------------------------------------------------- what a change does

  predicate Holds<Row(==)>(table: map<Uuid, Row>, id: Uuid, row: Row) {
    id in table && table[id] == row
  }

  /** A row the change puts there: inserted, or the image of a visible row its filter selects. */
  ghost predicate Put<Row>(table: map<Uuid, Row>, visible: (Uuid, Row) -> bool, view: Db, dml: Dml<Row>, id: Uuid, row: Row) {
    match dml
    case Insert(rows) => Holds(rows(view), id, row)
    case Update(filter, newId, newRow) =>
      exists i <- table :: visible(i, table[i]) && filter(view, i, table[i])
                           && newId(view, i, table[i]) == id && newRow(view, i, table[i]) == row
    case Delete(filter) => false
  }

  /** A row the change takes away: a visible one its filter selects. */
  ghost predicate Taken<Row>(table: map<Uuid, Row>, visible: (Uuid, Row) -> bool, view: Db, dml: Dml<Row>, id: Uuid) {
    match dml
    case Insert(rows) => false
    case Update(filter, newId, newRow) => id in table && visible(id, table[id]) && filter(view, id, table[id])
    case Delete(filter) => id in table && visible(id, table[id]) && filter(view, id, table[id])
  }

  lemma OverlayMeans<Row>(table: map<Uuid, Row>, hits: set<Uuid>, added: map<Uuid, Row>)
    requires added.Keys !! table.Keys - hits
    ensures forall id, row :: Holds((table - hits) + added, id, row)
              <==> (Holds(table, id, row) && id !in hits) || Holds(added, id, row)
    ensures hits == {} ==> (table - hits) + added == table + added
    ensures added == map[] ==> (table - hits) + added == table - hits
  {
  }

  lemma ImagesMean<Row>(table: map<Uuid, Row>, visible: (Uuid, Row) -> bool, view: Db, filter: (Db, Uuid, Row) -> bool,
                        newId: (Db, Uuid, Row) -> Uuid, newRow: (Db, Uuid, Row) -> Row)
    requires KeysFree(table, Hits(table, visible, view, filter), view, newId)
    ensures var hits := Hits(table, visible, view, filter);
            var images := Images(table, hits, view, newId, newRow);
            && images.Keys !! table.Keys - hits
            && forall id, row :: Holds(images, id, row) <==> Put(table, visible, view, Update(filter, newId, newRow), id, row)
  {
  }

  /** A change that goes through keeps every row it does not take, puts what it should, and passes WITH CHECK. */
  lemma ChangeMeans<Row>(table: map<Uuid, Row>, visible: (Uuid, Row) -> bool, view: Db, dml: Dml<Row>)
    requires Apply(table, visible, view, dml).Some?
    ensures forall id, row :: Holds(Apply(table, visible, view, dml).value, id, row)
              <==> (Holds(table, id, row) && !Taken(table, visible, view, dml, id))
                   || Put(table, visible, view, dml, id, row)
    ensures forall id, row | Put(table, visible, view, dml, id, row) :: visible(id, row)
  {
    match dml
    case Insert(rows) => OverlayMeans(table, {}, rows(view));
    case Update(filter, newId, newRow) =>
      var hits := Hits(table, visible, view, filter);
      ImagesMean(table, visible, view, filter, newId, newRow);
      OverlayMeans(table, hits, Images(table, hits, view, newId, newRow));
    case Delete(filter) => OverlayMeans(table, Hits(table, visible, view, filter), map[]);
  }

  /** Two rows of the result would have one primary key. */
  ghost predicate Clashes<Row>(table: map<Uuid, Row>, visible: (Uuid, Row) -> bool, view: Db, dml: Dml<Row>) {
    match dml
    case Insert(rows) => exists id <- rows(view) :: id in table
    case Update(filter, newId, newRow) =>
      exists i <- table, j <- table ::
        && i != j && Taken(table, visible, view, dml, i) && newId(view, i, table[i])
           == if Taken(table, visible, view, dml, j) then newId(view, j, table[j]) else j
    case Delete(filter) => false
  }

  lemma KeysFreeIff<Row>(table: map<Uuid, Row>, visible: (Uuid, Row) -> bool, view: Db, filter: (Db, Uuid, Row) -> bool,
                         newId: (Db, Uuid, Row) -> Uuid, newRow: (Db, Uuid, Row) -> Row)
    ensures KeysFree(table, Hits(table, visible, view, filter), view, newId)
       <==> !Clashes(table, visible, view, Update(filter, newId, newRow))
  {
  }

  lemma PassIff<Row>(rows: map<Uuid, Row>, visible: (Uuid, Row) -> bool)
    ensures AllPass(rows, visible) <==> forall id, row :: Holds(rows, id, row) ==> visible(id, row)
  {
    if id :| id in rows && !visible(id, rows[id]) {
      assert Holds(rows, id, rows[id]);
    }
  }

  /** A change is refused exactly for a duplicate key or a put row that fails WITH CHECK. */
  lemma RefusedIff<Row>(table: map<Uuid, Row>, visible: (Uuid, Row) -> bool, view: Db, dml: Dml<Row>)
    ensures Apply(table, visible, view, dml).None?
       <==> Clashes(table, visible, view, dml)
            || exists id, row :: Put(table, visible, view, dml, id, row) && !visible(id, row)
  {
    match dml
    case Insert(rows) => PassIff(rows(view), visible);
    case Update(filter, newId, newRow) =>
      KeysFreeIff(table, visible, view, filter, newId, newRow);
      if !Clashes(table, visible, view, dml) {
        ImagesMean(table, visible, view, filter, newId, newRow);
        PassIff(Images(table, Hits(table, visible, view, filter), view, newId, newRow), visible);
      }
    case Delete(filter) =>
  }

  // ---------------------------------------------------------------- what a change cannot touch

  lemma HiddenKeptByOverlay<Row>(table: map<Uuid, Row>, hits: set<Uuid>, added: map<Uuid, Row>, visible: (Uuid, Row) -> bool)
    requires forall id <- hits :: id in table && visible(id, table[id])
    requires AllPass(added, visible) && added.Keys !! table.Keys - hits
    ensures SameHidden(table, (table - hits) + added, visible)
    ensures hits == {} ==> (table - hits) + added == table + added
    ensures added == map[] ==> (table - hits) + added == table - hits
  {
  }

  /** The rows a policy hides are exactly as they were. */
  lemma HiddenRowsKept<Row>(table: map<Uuid, Row>, visible: (Uuid, Row) -> bool, view: Db, dml: Dml<Row>)
    requires Apply(table, visible, view, dml).Some?
    ensures SameHidden(table, Apply(table, visible, view, dml).value, visible)
  {
    match dml
    case Insert(rows) => HiddenKeptByOverlay(table, {}, rows(view), visible);
    case Update(filter, newId, newRow) =>
      var hits := Hits(table, visible, view, filter);
      HiddenKeptByOverlay(table, hits, Images(table, hits, view, newId, newRow), visible);
    case Delete(filter) => HiddenKeptByOverlay(table, Hits(table, visible, view, filter), map[], visible);
  }

  lemma HitsAreVisible<Row>(table: map<Uuid, Row>, visible: (Uuid, Row) -> bool, view: Db, filter: (Db, Uuid, Row) -> bool)
    ensures Hits(Rows(table, visible), visible, view, filter) == Hits(table, visible, view, filter)
    ensures forall id <- Hits(table, visible, view, filter) :: id in Rows(table, visible)
  {
  }

  lemma KeysFreeAmong<Row>(table: map<Uuid, Row>, seen: map<Uuid, Row>, hits: set<Uuid>, view: Db, newId: (Db, Uuid, Row) -> Uuid)
    requires hits <= seen.Keys && seen.Keys <= table.Keys && forall id <- seen :: seen[id] == table[id]
    requires KeysFree(table, hits, view, newId)
    ensures KeysFree(seen, hits, view, newId)
  {
  }

  lemma ImagesOfVisible<Row>(t1: map<Uuid, Row>, t2: map<Uuid, Row>, hits: set<Uuid>, view: Db,
                             newId: (Db, Uuid, Row) -> Uuid, newRow: (Db, Uuid, Row) -> Row)
    requires hits <= t1.Keys && hits <= t2.Keys && forall id <- hits :: t1[id] == t2[id]
    requires KeysFree(t1, hits, view, newId) && KeysFree(t2, hits, view, newId)
    ensures Images(t1, hits, view, newId, newRow) == Images(t2, hits, view, newId, newRow)
  {
  }

  lemma VisibleOverlay<Row>(table: map<Uuid, Row>, hits: set<Uuid>, added: map<Uuid, Row>, visible: (Uuid, Row) -> bool)
    requires forall id <- hits :: id in table && visible(id, table[id])
    requires AllPass(added, visible)
    ensures Rows((table - hits) + added, visible) == (Rows(table, visible) - hits) + added
    ensures hits == {} ==> Rows(table + added, visible) == Rows(table, visible) + added
    ensures added == map[] ==> Rows(table - hits, visible) == Rows(table, visible) - hits
  {
    assert hits == {} ==> table - hits == table && Rows(table, visible) - hits == Rows(table, visible);
    assert added == map[] ==> (table - hits) + added == table - hits;
  }

  lemma VisibleUpdate<Row>(table: map<Uuid, Row>, visible: (Uuid, Row) -> bool, view: Db, filter: (Db, Uuid, Row) -> bool,
                           newId: (Db, Uuid, Row) -> Uuid, newRow: (Db, Uuid, Row) -> Row)
    requires Apply(table, visible, view, Update(filter, newId, newRow)).Some?
    ensures Apply(Rows(table, visible), visible, view, Update(filter, newId, newRow))
         == Some(Rows(Apply(table, visible, view, Update(filter, newId, newRow)).value, visible))
  {
    var seen := Rows(table, visible);
    var hits := Hits(table, visible, view, filter);
    HitsAreVisible(table, visible, view, filter);
    KeysFreeAmong(table, seen, hits, view, newId);
    ImagesOfVisible(table, seen, hits, view, newId, newRow);
    VisibleOverlay(table, hits, Images(table, hits, view, newId, newRow), visible);
  }

  /** Running the change on the visible rows alone gives the visible rows of the result. */
  lemma VisibleRowsAfter<Row>(table: map<Uuid, Row>, visible: (Uuid, Row) -> bool, view: Db, dml: Dml<Row>)
    requires Apply(table, visible, view, dml).Some?
    ensures Apply(Rows(table, visible), visible, view, dml)
         == Some(Rows(Apply(table, visible, view, dml).value, visible))
  {
    var seen := Rows(table, visible);
    match dml
    case Insert(rows) => VisibleOverlay(table, {}, rows(view), visible);
    case Update(filter, newId, newRow) => VisibleUpdate(table, visible, view, filter, newId, newRow);
    case Delete(filter) =>
      var hits := Hits(table, visible, view, filter);
      assert Hits(seen, visible, view, filter) == hits;
      VisibleOverlay(table, hits, map[], visible);
  }

  lemma SamePolicySameResult<Row>(table: map<Uuid, Row>, vis1: (Uuid, Row) -> bool, vis2: (Uuid, Row) -> bool, view: Db, dml: Dml<Row>)
    requires forall id, row :: vis1(id, row) == vis2(id, row)
    ensures Apply(table, vis1, view, dml) == Apply(table, vis2, view, dml)
  {
    match dml
    case Insert(rows) =>
      assert AllPass(rows(view), vis1) == AllPass(rows(view), vis2);
    case Update(filter, newId, newRow) =>
      var hits := Hits(table, vis1, view, filter);
      assert Hits(table, vis2, view, filter) == hits;
      if KeysFree(table, hits, view, newId) {
        var images := Images(table, hits, view, newId, newRow);
        assert AllPass(images, vis1) == AllPass(images, vis2);
      }
    case Delete(filter) =>
      assert Hits(table, vis1, view, filter) == Hits(table, vis2, view, filter);
  }

  lemma SamePolicySameRows<Row>(table: map<Uuid, Row>, vis1: (Uuid, Row) -> bool, vis2: (Uuid, Row) -> bool)
    requires forall id, row :: vis1(id, row) == vis2(id, row)
    ensures Rows(table, vis1) == Rows(table, vis2)
  {
  }

  /** What the session sees afterwards depends only on what it saw before. */
  lemma VisibleRowsDetermined<Row>(t1: map<Uuid, Row>, t2: map<Uuid, Row>,
                                   vis1: (Uuid, Row) -> bool, vis2: (Uuid, Row) -> bool, view: Db, dml: Dml<Row>)
    requires forall id, row :: vis1(id, row) == vis2(id, row)
    requires Rows(t1, vis1) == Rows(t2, vis2)
    requires Apply(t1, vis1, view, dml).Some? && Apply(t2, vis2, view, dml).Some?
    ensures Rows(Apply(t1, vis1, view, dml).value, vis1) == Rows(Apply(t2, vis2, view, dml).value, vis2)
  {
    VisibleRowsAfter(t1, vis1, view, dml);
    VisibleRowsAfter(t2, vis2, view, dml);
    SamePolicySameResult(Rows(t1, vis1), vis1, vis2, view, dml);
  }
}
