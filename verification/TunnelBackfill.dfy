/**
 The one UPDATE that gives public tunnels their host label.

 A statement evaluates every WHERE clause against the table as it was, so the method below reads a
 snapshot and writes the live rows. What differs between Postgres and SQLite - `lower`, the label
 test, the collation - is a `Dialect`.
 */
module TunnelBackfill {
  import opened LabelPatterns
  import opened Text

  /** `columns` stands for everything the statement neither reads nor writes. */
  datatype Tunnel = Tunnel(
    org: string, name: string, isPublic: bool, hostname: Option<string>, createdAt: int, columns: string)

  datatype Dialect = Dialect(
    lower: string -> string,
    accepts: string -> bool,
    less: (string, string) -> bool)

  /** The primary key is (org_id, name). */
  ghost predicate KeysUnique(rows: seq<Tunnel>) {
    forall i, j :: 0 <= i < j < |rows| ==> (rows[i].org, rows[i].name) != (rows[j].org, rows[j].name)
  }

  /** The unique index on `hostname`, which ignores NULL. */
  ghost predicate HostnamesUnique(rows: seq<Tunnel>) {
    forall i, j :: 0 <= i < j < |rows| ==> rows[i].hostname.None? || rows[i].hostname != rows[j].hostname
  }

  ghost predicate StrictOrder(less: (string, string) -> bool) {
    && (forall a :: !less(a, a))
    && (forall a, b, c | less(a, b) && less(b, c) :: less(a, c))
    && (forall a, b :: a == b || less(a, b) || less(b, a))
  }

  /** The collation is a strict total order and the label test depends only on the lowercase name. */
  ghost predicate WellBehaved(d: Dialect) {
    && StrictOrder(d.less)
    && (forall m, n | d.lower(m) == d.lower(n) :: d.accepts(m) == d.accepts(n))
  }

  /** `(a.created_at, a.org_id, a.name) < (b.created_at, b.org_id, b.name)`. */
  predicate Older(d: Dialect, a: Tunnel, b: Tunnel) {
    || a.createdAt < b.createdAt
    || (a.createdAt == b.createdAt && d.less(a.org, b.org))
    || (a.createdAt == b.createdAt && a.org == b.org && d.less(a.name, b.name))
  }

  /** A public row without a label that would go by `host`. */
  predicate Wants(d: Dialect, t: Tunnel, host: string) {
    t.isPublic && t.hostname.None? && d.lower(t.name) == host
  }

  /** The UPDATE's WHERE clause for row `i`. */
  predicate Selected(d: Dialect, rows: seq<Tunnel>, i: nat)
    requires i < |rows|
  {
    var host := d.lower(rows[i].name);
    && rows[i].isPublic && rows[i].hostname.None?
    && d.accepts(rows[i].name)
    && (forall h :: 0 <= h < |rows| ==> rows[h].hostname != Some(host))
    && (forall o :: 0 <= o < |rows| && Wants(d, rows[o], host) ==> !Older(d, rows[o], rows[i]))
  }

  function Relabelled(d: Dialect, rows: seq<Tunnel>, i: nat): Tunnel
    requires i < |rows|
  {
    if Selected(d, rows, i) then rows[i].(hostname := Some(d.lower(rows[i].name))) else rows[i]
  }

  function Backfilled(d: Dialect, rows: seq<Tunnel>): (after: seq<Tunnel>)
    ensures |after| == |rows|
  {
    seq(|rows|, i requires 0 <= i < |rows| => Relabelled(d, rows, i))
  }

  method Backfill(d: Dialect, rows: array<Tunnel>)
    modifies rows
    ensures rows[..] == Backfilled(d, old(rows[..]))
  {
    var before := rows[..];
    for i := 0 to rows.Length
      invariant rows[..i] == Backfilled(d, before)[..i]
      invariant rows[i..] == before[i..]
    {
      if Selected(d, before, i) {
        rows[i] := rows[i].(hostname := Some(d.lower(rows[i].name)));
      }
      assert rows[i] == Relabelled(d, before, i);
      assert rows[..i + 1] == rows[..i] + [rows[i]];
    }
  }

  // ---------------------------------------------------------------- the order

  lemma OlderTotal(d: Dialect, rows: seq<Tunnel>, i: nat, j: nat)
    requires StrictOrder(d.less) && KeysUnique(rows) && i < |rows| && j < |rows| && i != j
    ensures Older(d, rows[i], rows[j]) || Older(d, rows[j], rows[i])
  {
    assert (rows[i].org, rows[i].name) != (rows[j].org, rows[j].name);
  }

  lemma OlderTransitive(d: Dialect, a: Tunnel, b: Tunnel, c: Tunnel)
    requires StrictOrder(d.less) && Older(d, a, b) && Older(d, b, c)
    ensures Older(d, a, c)
  {
  }

  lemma OlderAsymmetric(d: Dialect, a: Tunnel, b: Tunnel)
    requires StrictOrder(d.less) && Older(d, a, b)
    ensures !Older(d, b, a)
  {
    if Older(d, b, a) {
      OlderTransitive(d, a, b, a);
    }
  }

  /** No claimant of `host` among the first `n` rows is older than row `m`. */
  ghost predicate LeastClaimant(d: Dialect, rows: seq<Tunnel>, host: string, m: nat, n: nat) {
    && m < n <= |rows| && Wants(d, rows[m], host)
    && forall o :: 0 <= o < n && Wants(d, rows[o], host) ==> !Older(d, rows[o], rows[m])
  }

  /** A wanted label has an oldest claimant. */
  lemma {:induction false} LeastClaimantExists(d: Dialect, rows: seq<Tunnel>, host: string, i: nat, n: nat) returns (m: nat)
    requires StrictOrder(d.less) && i < n <= |rows| && Wants(d, rows[i], host)
    ensures LeastClaimant(d, rows, host, m, n)
    decreases n
  {
    if exists k :: 0 <= k < n - 1 && Wants(d, rows[k], host) {
      var k :| 0 <= k < n - 1 && Wants(d, rows[k], host);
      m := LeastClaimantExists(d, rows, host, k, n - 1);
      if Wants(d, rows[n - 1], host) && Older(d, rows[n - 1], rows[m]) {
        forall o | 0 <= o < n && Wants(d, rows[o], host)
          ensures !Older(d, rows[o], rows[n - 1])
        {
          if Older(d, rows[o], rows[n - 1]) {
            if o == n - 1 {
              OlderAsymmetric(d, rows[o], rows[o]);
            } else {
              OlderTransitive(d, rows[o], rows[n - 1], rows[m]);
            }
          }
        }
        m := n - 1;
      }
    } else {
      m := i;
      assert i == n - 1;
      if Older(d, rows[m], rows[m]) {
        OlderAsymmetric(d, rows[m], rows[m]);
      }
    }
  }

  // ---------------------------------------------------------------- theorems

  /** Only `hostname` changes, only from NULL, and only on public rows whose name is a label. */
  lemma BackfillFrame(d: Dialect, rows: seq<Tunnel>, i: nat)
    requires i < |rows|
    ensures var t := Backfilled(d, rows)[i];
            && t.(hostname := None) == rows[i].(hostname := None)
            && (t != rows[i] ==> rows[i].isPublic && rows[i].hostname.None? && d.accepts(rows[i].name)
                                 && t.hostname == Some(d.lower(rows[i].name)))
  {
  }

  lemma SelectedUnique(d: Dialect, rows: seq<Tunnel>, i: nat, j: nat)
    requires StrictOrder(d.less) && KeysUnique(rows) && i < |rows| && j < |rows|
    requires Selected(d, rows, i) && Selected(d, rows, j) && d.lower(rows[i].name) == d.lower(rows[j].name)
    ensures i == j
  {
    if i != j {
      OlderTotal(d, rows, i, j);
    }
  }

  /** The unique index on `hostname` still holds afterwards. */
  lemma BackfillKeepsHostnamesUnique(d: Dialect, rows: seq<Tunnel>)
    requires StrictOrder(d.less) && KeysUnique(rows) && HostnamesUnique(rows)
    ensures KeysUnique(Backfilled(d, rows)) && HostnamesUnique(Backfilled(d, rows))
  {
    var after := Backfilled(d, rows);
    forall i, j | 0 <= i < j < |rows| && after[i].hostname.Some? && after[i].hostname == after[j].hostname
      ensures false
    {
      if Selected(d, rows, i) && Selected(d, rows, j) {
        SelectedUnique(d, rows, i, j);
      }
    }
  }

  predicate Free(rows: seq<Tunnel>, host: string) {
    forall h :: 0 <= h < |rows| ==> rows[h].hostname != Some(host)
  }

  ghost predicate HeldBy(rows: seq<Tunnel>, host: string, m: nat) {
    m < |rows| && rows[m].hostname == Some(host)
  }

  lemma HolderUnique(rows: seq<Tunnel>, host: string, k: nat, m: nat)
    requires HostnamesUnique(rows) && HeldBy(rows, host, k) && HeldBy(rows, host, m)
    ensures k == m
  {
  }

  /** Row `m` was created no later than row `o`; at one instant, by no later org; at one instant and org, no later name. */
  predicate CreatedFirst(d: Dialect, m: Tunnel, o: Tunnel) {
    && m.createdAt <= o.createdAt
    && (m.createdAt == o.createdAt ==> m.org == o.org || d.less(m.org, o.org))
    && (m.createdAt == o.createdAt && m.org == o.org ==> m.name == o.name || d.less(m.name, o.name))
  }

  /** The claimant that was created first among all. */
  ghost predicate FirstClaimant(d: Dialect, rows: seq<Tunnel>, host: string, m: nat) {
    && m < |rows| && rows[m].isPublic && rows[m].hostname.None? && d.lower(rows[m].name) == host
    && forall o :: 0 <= o < |rows| && rows[o].isPublic && rows[o].hostname.None? && d.lower(rows[o].name) == host ==>
         CreatedFirst(d, rows[m], rows[o])
  }

  lemma StrictEither(less: (string, string) -> bool, a: string, b: string)
    requires StrictOrder(less)
    ensures !less(a, b) <==> a == b || less(b, a)
  {
  }

  lemma NotOlder(d: Dialect, o: Tunnel, m: Tunnel)
    requires StrictOrder(d.less)
    ensures !Older(d, o, m) <==> CreatedFirst(d, m, o)
  {
    StrictEither(d.less, o.org, m.org);
    StrictEither(d.less, o.name, m.name);
  }

  /** Being no older than anyone is being created first. */
  lemma LeastIsFirst(d: Dialect, rows: seq<Tunnel>, host: string, m: nat)
    requires StrictOrder(d.less)
    ensures LeastClaimant(d, rows, host, m, |rows|) <==> FirstClaimant(d, rows, host, m)
  {
    if m < |rows| {
      forall o | 0 <= o < |rows| ensures !Older(d, rows[o], rows[m]) <==> CreatedFirst(d, rows[m], rows[o]) {
        NotOlder(d, rows[o], rows[m]);
      }
    }
  }

  /**
   Every valid label a public unlabelled row goes by has exactly one holder afterwards: the row
   that held it already, or else the claimant that was created first.
   */
  lemma EveryWantedLabelBound(d: Dialect, rows: seq<Tunnel>, i: nat) returns (m: nat)
    requires WellBehaved(d) && KeysUnique(rows) && HostnamesUnique(rows) && i < |rows|
    requires rows[i].isPublic && rows[i].hostname.None? && d.accepts(rows[i].name)
    ensures var host := d.lower(rows[i].name);
            && HeldBy(Backfilled(d, rows), host, m)
            && (forall k: nat :: HeldBy(Backfilled(d, rows), host, k) ==> k == m)
            && (if Free(rows, host) then FirstClaimant(d, rows, host, m) else HeldBy(rows, host, m))
  {
    var host := d.lower(rows[i].name);
    var after := Backfilled(d, rows);
    if Free(rows, host) {
      m := LeastClaimantExists(d, rows, host, i, |rows|);
      assert Selected(d, rows, m);
      LeastIsFirst(d, rows, host, m);
    } else {
      var h :| 0 <= h < |rows| && rows[h].hostname == Some(host);
      m := h;
      assert HeldBy(rows, host, m);
    }
    assert HeldBy(after, host, m);
    BackfillKeepsHostnamesUnique(d, rows);
    forall k: nat | HeldBy(after, host, k)
      ensures k == m
    {
      HolderUnique(after, host, k, m);
    }
  }

  /** Running the statement again changes nothing. */
  lemma BackfillIdempotent(d: Dialect, rows: seq<Tunnel>)
    requires WellBehaved(d) && KeysUnique(rows) && HostnamesUnique(rows)
    ensures Backfilled(d, Backfilled(d, rows)) == Backfilled(d, rows)
  {
    var after := Backfilled(d, rows);
    forall i | 0 <= i < |rows|
      ensures !Selected(d, after, i)
    {
      if Selected(d, after, i) {
        assert after[i] == rows[i];
        var m := EveryWantedLabelBound(d, rows, i);
      }
    }
  }

  // ---------------------------------------------------------------- the two dialects

  /** Postgres: the locale's `lower`, and the regular expression on the lowercase name. */
  function Postgres(lower: string -> string, less: (string, string) -> bool): Dialect {
    Dialect(lower, name => Matches(LABEL_REGEX, lower(name)), less)
  }

  function Sqlite(less: (string, string) -> bool): Dialect {
    Dialect(AsciiLower, SqliteAccepts, less)
  }

  /** The plain lexicographic collation is one of the orders the theorems allow. */
  lemma LexicographicIsStrict()
    ensures StrictOrder((a, b) => Compare(a, b) == Less)
  {
    forall a, b
      ensures Compare(a, b) == Equal <==> a == b
      ensures Compare(b, a) == Compare(a, b).Reverse()
    {
      CompareEqual(a, b);
      CompareReverse(a, b);
    }
    forall a, b, c | Compare(a, b) == Less && Compare(b, c) == Less
      ensures Compare(a, c) == Less
    {
      CompareTransitive(a, b, c);
    }
  }

  lemma DialectsWellBehaved(lower: string -> string, less: (string, string) -> bool)
    requires StrictOrder(less)
    ensures WellBehaved(Postgres(lower, less)) && WellBehaved(Sqlite(less))
  {
    forall m, n | AsciiLower(m) == AsciiLower(n)
      ensures SqliteAccepts(m) == SqliteAccepts(n)
    {
      GlobsMeanLabel(m);
      GlobsMeanLabel(n);
    }
  }

  /** On a name the locale lowercases as ASCII does, the two label tests agree. */
  lemma LabelTestsAgree(lower: string -> string, lessP: (string, string) -> bool, lessS: (string, string) -> bool, name: string)
    requires lower(name) == AsciiLower(name)
    ensures Postgres(lower, lessP).accepts(name) == Sqlite(lessS).accepts(name)
  {
    RegexMeansLabel(lower(name));
    GlobsMeanLabel(name);
  }

  /** The locale lowercases every name as SQLite does; a C locale does so on every name. */
  ghost predicate LowersAsAscii(lower: string -> string, rows: seq<Tunnel>) {
    forall i :: 0 <= i < |rows| ==> lower(rows[i].name) == AsciiLower(rows[i].name)
  }

  /** A valid label that no row holds and row `m` goes by. */
  predicate Claims(d: Dialect, rows: seq<Tunnel>, m: nat)
    requires m < |rows|
  {
    && Wants(d, rows[m], d.lower(rows[m].name)) && d.accepts(rows[m].name)
    && Free(rows, d.lower(rows[m].name))
  }

  /** The least claimant of a free valid label is selected, and no other row is. */
  lemma SelectedIffLeast(d: Dialect, rows: seq<Tunnel>, i: nat)
    requires i < |rows|
    ensures Selected(d, rows, i)
       <==> Claims(d, rows, i) && LeastClaimant(d, rows, d.lower(rows[i].name), i, |rows|)
  {
  }

  /** The claimant of a free valid label that was created first is selected, and no other row is. */
  lemma SelectedIffFirst(d: Dialect, rows: seq<Tunnel>, i: nat)
    requires StrictOrder(d.less) && i < |rows|
    ensures Selected(d, rows, i)
       <==> Claims(d, rows, i) && FirstClaimant(d, rows, d.lower(rows[i].name), i)
  {
    SelectedIffLeast(d, rows, i);
    LeastIsFirst(d, rows, d.lower(rows[i].name), i);
  }

  /** For every free valid label, both orders call the same claimant the oldest. */
  ghost predicate SameOldest(p: Dialect, q: Dialect, rows: seq<Tunnel>) {
    forall m: nat | m < |rows| && Claims(q, rows, m) ::
      LeastClaimant(p, rows, q.lower(rows[m].name), m, |rows|)
      <==> LeastClaimant(q, rows, q.lower(rows[m].name), m, |rows|)
  }

  lemma SameClaims(lower: string -> string, lessP: (string, string) -> bool, lessS: (string, string) -> bool, rows: seq<Tunnel>, i: nat)
    requires LowersAsAscii(lower, rows) && i < |rows|
    ensures lower(rows[i].name) == AsciiLower(rows[i].name)
    ensures Claims(Postgres(lower, lessP), rows, i) == Claims(Sqlite(lessS), rows, i)
  {
    LabelTestsAgree(lower, lessP, lessS, rows[i].name);
  }

  lemma SelectedChanges(d: Dialect, rows: seq<Tunnel>, i: nat)
    requires i < |rows|
    ensures Selected(d, rows, i) <==> Backfilled(d, rows)[i] != rows[i]
  {
  }

  lemma SameTables(p: Dialect, q: Dialect, rows: seq<Tunnel>)
    requires forall i: nat | i < |rows| :: p.lower(rows[i].name) == q.lower(rows[i].name)
    ensures Backfilled(p, rows) == Backfilled(q, rows)
       <==> forall i: nat | i < |rows| :: Selected(p, rows, i) == Selected(q, rows, i)
  {
    forall i: nat | i < |rows|
      ensures Backfilled(p, rows)[i] == Backfilled(q, rows)[i] <==> Selected(p, rows, i) == Selected(q, rows, i)
    {
      SelectedChanges(p, rows, i);
      SelectedChanges(q, rows, i);
    }
  }

  /**
   Each database keeps its own collation. Under a locale that lowercases the names as SQLite does,
   the two statements write the same table exactly when the two orders agree on the oldest claimant
   of every free valid label.
   */
  lemma DialectsAgreeIff(lower: string -> string, lessP: (string, string) -> bool, lessS: (string, string) -> bool, rows: seq<Tunnel>)
    requires LowersAsAscii(lower, rows)
    ensures Backfilled(Postgres(lower, lessP), rows) == Backfilled(Sqlite(lessS), rows)
       <==> SameOldest(Postgres(lower, lessP), Sqlite(lessS), rows)
  {
    var p, q := Postgres(lower, lessP), Sqlite(lessS);
    forall i: nat | i < |rows|
      ensures Claims(p, rows, i) == Claims(q, rows, i)
      ensures p.lower(rows[i].name) == q.lower(rows[i].name)
      ensures Selected(p, rows, i) <==> Claims(p, rows, i) && LeastClaimant(p, rows, q.lower(rows[i].name), i, |rows|)
      ensures Selected(q, rows, i) <==> Claims(q, rows, i) && LeastClaimant(q, rows, q.lower(rows[i].name), i, |rows|)
      ensures Selected(p, rows, i) <==> Backfilled(p, rows)[i] != rows[i]
      ensures Selected(q, rows, i) <==> Backfilled(q, rows)[i] != rows[i]
    {
      SameClaims(lower, lessP, lessS, rows, i);
      SelectedIffLeast(p, rows, i);
      SelectedIffLeast(q, rows, i);
      SelectedChanges(p, rows, i);
      SelectedChanges(q, rows, i);
    }
    SameTables(p, q, rows);
  }

  /** In the rows' own fields: both orders call the same claimant of every free valid label the first. */
  ghost predicate SameFirst(p: Dialect, q: Dialect, rows: seq<Tunnel>) {
    forall m: nat | m < |rows| && Claims(q, rows, m) ::
      FirstClaimant(p, rows, q.lower(rows[m].name), m) <==> FirstClaimant(q, rows, q.lower(rows[m].name), m)
  }

  /** For collations, which are strict orders, the oldest claimant is the one created first. */
  lemma DialectsAgreeFirstIff(lower: string -> string, lessP: (string, string) -> bool, lessS: (string, string) -> bool, rows: seq<Tunnel>)
    requires LowersAsAscii(lower, rows) && StrictOrder(lessP) && StrictOrder(lessS)
    ensures Backfilled(Postgres(lower, lessP), rows) == Backfilled(Sqlite(lessS), rows)
       <==> SameFirst(Postgres(lower, lessP), Sqlite(lessS), rows)
  {
    var p, q := Postgres(lower, lessP), Sqlite(lessS);
    forall m: nat | m < |rows|
      ensures LeastClaimant(p, rows, q.lower(rows[m].name), m, |rows|) <==> FirstClaimant(p, rows, q.lower(rows[m].name), m)
      ensures LeastClaimant(q, rows, q.lower(rows[m].name), m, |rows|) <==> FirstClaimant(q, rows, q.lower(rows[m].name), m)
    {
      LeastIsFirst(p, rows, q.lower(rows[m].name), m);
      LeastIsFirst(q, rows, q.lower(rows[m].name), m);
    }
    DialectsAgreeIff(lower, lessP, lessS, rows);
  }

  /** Where no two claimants of one free valid label were created at one instant, the collations do not matter. */
  lemma DistinctInstantsAgree(lower: string -> string, lessP: (string, string) -> bool, lessS: (string, string) -> bool, rows: seq<Tunnel>)
    requires LowersAsAscii(lower, rows) && StrictOrder(lessP) && StrictOrder(lessS)
    requires forall i: nat, j: nat | i < j < |rows| && Claims(Sqlite(lessS), rows, i) && Claims(Sqlite(lessS), rows, j)
               && AsciiLower(rows[i].name) == AsciiLower(rows[j].name) :: rows[i].createdAt != rows[j].createdAt
    ensures Backfilled(Postgres(lower, lessP), rows) == Backfilled(Sqlite(lessS), rows)
  {
    var p, q := Postgres(lower, lessP), Sqlite(lessS);
    forall m: nat | m < |rows| && Claims(q, rows, m)
      ensures FirstClaimant(p, rows, q.lower(rows[m].name), m) <==> FirstClaimant(q, rows, q.lower(rows[m].name), m)
    {
      SameClaims(lower, lessP, lessS, rows, m);
      forall o: nat | o < |rows|
        ensures p.lower(rows[o].name) == q.lower(rows[o].name)
        ensures Wants(q, rows[o], q.lower(rows[m].name)) ==> CreatedFirst(p, rows[m], rows[o]) == CreatedFirst(q, rows[m], rows[o])
      {
        SameClaims(lower, lessP, lessS, rows, o);
        if Wants(q, rows[o], q.lower(rows[m].name)) {
          GlobsMeanLabel(rows[m].name);
          GlobsMeanLabel(rows[o].name);
          assert Claims(q, rows, o);
        }
      }
    }
    DialectsAgreeFirstIff(lower, lessP, lessS, rows);
  }

  /** Two rows of one org, created at one instant, that want the label `foo`. */
  const FOO_TIE: seq<Tunnel> := [
    Tunnel("org", "Foo", true, None, 0, ""),
    Tunnel("org", "foo", true, None, 0, "")]

  lemma FooLabels(lower: string -> string, less: (string, string) -> bool)
    requires LowersAsAscii(lower, FOO_TIE)
    ensures lower("Foo") == lower("foo") == AsciiLower("Foo") == AsciiLower("foo") == "foo"
    ensures forall name <- ["Foo", "foo"] :: Postgres(lower, less).accepts(name) && Sqlite(less).accepts(name)
  {
    assert FOO_TIE[0].name == "Foo" && FOO_TIE[1].name == "foo";
    assert AsciiLower("Foo") == "foo" && AsciiLower("foo") == "foo";
    GlobsMeanLabel("Foo");
    GlobsMeanLabel("foo");
    RegexMeansLabel("foo");
  }

  /** The row whose name the collation puts first gets the label. */
  lemma TieBroken(d: Dialect, w: nat)
    requires w < 2 && d.lower("Foo") == d.lower("foo") == "foo" && d.accepts(FOO_TIE[w].name)
    requires !d.less("org", "org") && !d.less(FOO_TIE[w].name, FOO_TIE[w].name)
    requires d.less(FOO_TIE[w].name, FOO_TIE[1 - w].name) && !d.less(FOO_TIE[1 - w].name, FOO_TIE[w].name)
    ensures Backfilled(d, FOO_TIE)[w].hostname == Some("foo") && Backfilled(d, FOO_TIE)[1 - w].hostname == None
  {
    assert Older(d, FOO_TIE[w], FOO_TIE[1 - w]) && !Older(d, FOO_TIE[1 - w], FOO_TIE[w]);
    assert !Older(d, FOO_TIE[w], FOO_TIE[w]);
    assert Wants(d, FOO_TIE[w], "foo") && Wants(d, FOO_TIE[1 - w], "foo");
    assert Selected(d, FOO_TIE, w) && !Selected(d, FOO_TIE, 1 - w);
  }

  lemma StrictAsymmetric(less: (string, string) -> bool, a: string, b: string)
    requires StrictOrder(less) && less(a, b)
    ensures !less(b, a) && !less(a, a)
  {
  }

  /** The tie goes to either row, by the collation: linguistic orders put `foo` first, byte order `Foo`. */
  lemma CollationsDisagree(lower: string -> string, lessP: (string, string) -> bool, lessS: (string, string) -> bool)
    requires LowersAsAscii(lower, FOO_TIE) && StrictOrder(lessP) && StrictOrder(lessS)
    requires lessP("foo", "Foo") && lessS("Foo", "foo")
    ensures KeysUnique(FOO_TIE) && HostnamesUnique(FOO_TIE)
    ensures Backfilled(Postgres(lower, lessP), FOO_TIE)[1].hostname == Some("foo")
    ensures Backfilled(Sqlite(lessS), FOO_TIE)[0].hostname == Some("foo")
    ensures Backfilled(Postgres(lower, lessP), FOO_TIE) != Backfilled(Sqlite(lessS), FOO_TIE)
  {
    assert "Foo"[0] != "foo"[0];
    FooLabels(lower, lessP);
    FooLabels(lower, lessS);
    StrictAsymmetric(lessP, "foo", "Foo");
    StrictAsymmetric(lessS, "Foo", "foo");
    TieBroken(Postgres(lower, lessP), 1);
    TieBroken(Sqlite(lessS), 0);
  }

  /**
   Outside ASCII they can differ: a locale that lowercases the Kelvin sign to `k` makes the
   Postgres test accept a name that the SQLite test refuses.
   */
  lemma DialectsDisagreeOutsideAscii(lower: string -> string, less: (string, string) -> bool)
    requires lower("\U{212A}") == "k"
    ensures Postgres(lower, less).accepts("\U{212A}") && !Sqlite(less).accepts("\U{212A}")
  {
    RegexMeansLabel("k");
    GlobsMeanLabel("\U{212A}");
    var l := AsciiLower("\U{212A}");
    assert l[0] == LowerChar('\U{212A}');
  }

  /** Two orgs that registered `foo` one after the other: the earlier registration gets the label. */
  lemma EarlierWins(d: Dialect, rows: seq<Tunnel>)
    requires WellBehaved(d) && d.lower("foo") == "foo" && d.accepts("foo")
    requires rows == [Tunnel("a", "foo", true, None, 1, ""), Tunnel("b", "foo", true, None, 2, "")]
    ensures Backfilled(d, rows) == [rows[0].(hostname := Some("foo")), rows[1]]
  {
    assert rows[0].org != rows[1].org by {
      assert "a"[0] != "b"[0];
    }
    var m := EveryWantedLabelBound(d, rows, 0);
    assert CreatedFirst(d, rows[m], rows[0]) && m == 0;
    assert !HeldBy(Backfilled(d, rows), "foo", 1);
    BackfillFrame(d, rows, 0);
    BackfillFrame(d, rows, 1);
  }
}
