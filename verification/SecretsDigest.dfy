/**
 The text that is hashed into the digest of a secret set (src/publish_guard.rs, `secrets_digest`).
 The hash itself is not part of this model; an empty set has no preimage and an empty digest.
 */
module SecretsDigest {
  import opened Text
  import LeafChecks

  datatype Entry = Entry(name: string, value: string)

  // ---------------------------------------------------------------- sorting

  /** Rust's order on `(&str, &str)`. */
  function CompareEntry(a: Entry, b: Entry): Ordering {
    var o := Compare(a.name, b.name);
    if o != Equal then o else Compare(a.value, b.value)
  }

  predicate Le(a: Entry, b: Entry) {
    CompareEntry(a, b) != Greater
  }

  ghost predicate IsSorted(es: seq<Entry>) {
    forall i, j :: 0 <= i <= j < |es| ==> Le(es[i], es[j])
  }

  lemma LeTotal(a: Entry, b: Entry)
    ensures Le(a, b) || Le(b, a)
    ensures Le(a, b) && Le(b, a) ==> a == b
  {
    CompareReverse(a.name, b.name);
    CompareReverse(a.value, b.value);
    CompareEqual(a.name, b.name);
    CompareEqual(a.value, b.value);
  }

  lemma LeTransitive(a: Entry, b: Entry, c: Entry)
    requires Le(a, b) && Le(b, c)
    ensures Le(a, c)
  {
    CompareEqual(a.name, b.name);
    CompareEqual(b.name, c.name);
    CompareEqual(a.value, b.value);
    CompareEqual(b.value, c.value);
    if Compare(a.name, b.name) == Less && Compare(b.name, c.name) == Less {
      CompareTransitive(a.name, b.name, c.name);
    }
    if Compare(a.value, b.value) == Less && Compare(b.value, c.value) == Less {
      CompareTransitive(a.value, b.value, c.value);
    }
  }

  function Insert(e: Entry, es: seq<Entry>): (r: seq<Entry>)
    ensures multiset(r) == multiset(es) + multiset{e}
  {
    if es == [] then [e]
    else if Le(e, es[0]) then [e] + es
    else
      assert es == [es[0]] + es[1..];
      [es[0]] + Insert(e, es[1..])
  }

  /** What `sort_unstable` produces. */
  function Sorted(es: seq<Entry>): (r: seq<Entry>)
    ensures multiset(r) == multiset(es)
  {
    if es == [] then []
    else
      assert es == [es[0]] + es[1..];
      Insert(es[0], Sorted(es[1..]))
  }

  lemma {:induction false} InsertSorted(e: Entry, es: seq<Entry>)
    requires IsSorted(es)
    ensures IsSorted(Insert(e, es))
    decreases |es|
  {
    LeTotal(e, e);
    if es == [] {
    } else {
      LeTotal(e, es[0]);
      if Le(e, es[0]) {
        forall i | 0 <= i < |es| ensures Le(e, es[i]) {
          LeTransitive(e, es[0], es[i]);
        }
      } else {
        InsertSorted(e, es[1..]);
        var rest := Insert(e, es[1..]);
        forall i | 0 <= i < |rest| ensures Le(es[0], rest[i]) {
          assert rest[i] in multiset(rest);
          if rest[i] != e {
            assert rest[i] in multiset(es[1..]);
          }
        }
        LeTotal(es[0], es[0]);
      }
    }
  }

  lemma {:induction false} SortedIsSorted(es: seq<Entry>)
    ensures IsSorted(Sorted(es))
    decreases |es|
  {
    if es == [] {
    } else {
      SortedIsSorted(es[1..]);
      InsertSorted(es[0], Sorted(es[1..]));
    }
  }

  lemma LeastFirst(a: seq<Entry>, b: seq<Entry>)
    requires IsSorted(a) && IsSorted(b) && multiset(a) == multiset(b) && a != [] && b != []
    ensures a[0] == b[0]
  {
    assert a[0] in multiset(b) && b[0] in multiset(a);
    var i :| 0 <= i < |a| && a[i] == b[0];
    var j :| 0 <= j < |b| && b[j] == a[0];
    LeTotal(a[0], b[0]);
  }

  lemma WithoutFirst(es: seq<Entry>)
    requires es != []
    ensures multiset(es[1..]) == multiset(es) - multiset{es[0]}
  {
    assert es == [es[0]] + es[1..];
  }

  /** A multiset has one sorted listing, so any sorting algorithm gives this one. */
  lemma {:induction false} SortedUnique(a: seq<Entry>, b: seq<Entry>)
    requires IsSorted(a) && IsSorted(b) && multiset(a) == multiset(b)
    ensures a == b
    decreases |a|
  {
    assert |a| == |multiset(a)| == |multiset(b)| == |b|;
    if a == [] {
    } else {
      LeastFirst(a, b);
      WithoutFirst(a);
      WithoutFirst(b);
      SortedUnique(a[1..], b[1..]);
      assert a == [a[0]] + a[1..] && b == [b[0]] + b[1..];
    }
  }

  // ---------------------------------------------------------------- the preimage

  /** `NAME=VALUE` and a line break. */
  function Line(e: Entry): string {
    e.name + "=" + e.value + "\n"
  }

  function Serialize(es: seq<Entry>): string {
    if es == [] then "" else Line(es[0]) + Serialize(es[1..])
  }

  lemma Assoc(a: string, b: string, c: string)
    ensures (a + b) + c == a + (b + c)
  {
  }

  function PreimageOf(es: seq<Entry>): Option<string> {
    if es == [] then None else Some(Serialize(Sorted(es)))
  }

  lemma FedLine(before: string, e: Entry)
    ensures (((before + e.name) + "=") + e.value) + "\n" == before + Line(e)
  {
    Assoc(before, e.name, "=");
    Assoc(before, e.name + "=", e.value);
    Assoc(before, e.name + "=" + e.value, "\n");
  }

  /** Four updates of the hasher: the name, `=`, the value, a line break. */
  method Feed(before: string, e: Entry) returns (fed: string)
    ensures forall rest :: fed + rest == before + (Line(e) + rest)
  {
    fed := before;
    fed := fed + e.name;
    fed := fed + "=";
    fed := fed + e.value;
    fed := fed + "\n";
    FedLine(before, e);
    forall rest ensures fed + rest == before + (Line(e) + rest) {
      Assoc(before, Line(e), rest);
    }
  }

  method Preimage(entries: seq<Entry>) returns (p: Option<string>)
    ensures p == PreimageOf(entries)
  {
    if entries == [] {
      return None;
    }
    var sorted := Sorted(entries);
    var fed := "";
    for i := 0 to |sorted|
      invariant fed + Serialize(sorted[i..]) == Serialize(sorted)
    {
      fed := Feed(fed, sorted[i]);
      assert sorted[i..][1..] == sorted[i + 1..];
    }
    assert sorted[|sorted|..] == [] && fed + "" == fed;
    p := Some(fed);
  }

  /** The order the secrets arrive in does not matter. */
  lemma PreimageOrderFree(a: seq<Entry>, b: seq<Entry>)
    requires multiset(a) == multiset(b)
    ensures PreimageOf(a) == PreimageOf(b)
  {
    assert |a| == |multiset(a)| == |multiset(b)| == |b|;
    SortedIsSorted(a);
    SortedIsSorted(b);
    SortedUnique(Sorted(a), Sorted(b));
  }

  // ---------------------------------------------------------------- injectivity

  /** A registered key and a value without a line break. */
  predicate Deliverable(e: Entry) {
    LeafChecks.IsSecretKey(e.name) && '\n' !in e.value
  }

  predicate AllDeliverable(es: seq<Entry>) {
    forall i :: 0 <= i < |es| ==> Deliverable(es[i])
  }

  lemma LineEnds(name: string, value: string, rest: string)
    requires '=' !in name && '\n' !in value
    ensures var s := Line(Entry(name, value)) + rest;
            && IndexOf(s, '=') == |name| && s[..|name|] == name
            && IndexOf(s[|name| + 1..], '\n') == |value| && s[|name| + 1..][..|value|] == value
            && s[|name| + 1..][|value| + 1..] == rest
  {
    var s := Line(Entry(name, value)) + rest;
    IndexOfUnique(s, '=', |name|);
    var t := value + "\n" + rest;
    assert s[|name| + 1..] == t;
    IndexOfUnique(t, '\n', |value|);
  }

  lemma KeyHasNoEquals(e: Entry)
    requires Deliverable(e)
    ensures '=' !in e.name
  {
  }

  lemma SameLine(a: Entry, x: string, b: Entry, y: string)
    requires '=' !in a.name && '\n' !in a.value && '=' !in b.name && '\n' !in b.value
    requires Line(a) + x == Line(b) + y
    ensures a == b && x == y
  {
    LineEnds(a.name, a.value, x);
    LineEnds(b.name, b.value, y);
  }

  lemma {:induction false} SerializeInjective(a: seq<Entry>, b: seq<Entry>)
    requires AllDeliverable(a) && AllDeliverable(b) && Serialize(a) == Serialize(b)
    ensures a == b
    decreases |a|
  {
    if a == [] || b == [] {
    } else {
      KeyHasNoEquals(a[0]);
      KeyHasNoEquals(b[0]);
      SameLine(a[0], Serialize(a[1..]), b[0], Serialize(b[1..]));
      SerializeInjective(a[1..], b[1..]);
      assert a == [a[0]] + a[1..] && b == [b[0]] + b[1..];
    }
  }

  lemma DeliverableSorted(es: seq<Entry>)
    requires AllDeliverable(es)
    ensures AllDeliverable(Sorted(es))
  {
    forall i | 0 <= i < |es| ensures Deliverable(Sorted(es)[i]) {
      assert Sorted(es)[i] in multiset(Sorted(es));
      assert Sorted(es)[i] in multiset(es);
    }
    assert |Sorted(es)| == |multiset(Sorted(es))| == |es|;
  }

  /** Equal preimages mean equal sets of secrets, and the other way round. */
  lemma PreimageInjective(a: seq<Entry>, b: seq<Entry>)
    requires AllDeliverable(a) && AllDeliverable(b)
    ensures PreimageOf(a) == PreimageOf(b) <==> multiset(a) == multiset(b)
  {
    if multiset(a) == multiset(b) {
      PreimageOrderFree(a, b);
    }
    if PreimageOf(a) == PreimageOf(b) && a != [] {
      DeliverableSorted(a);
      DeliverableSorted(b);
      SerializeInjective(Sorted(a), Sorted(b));
    }
  }

  // ---------------------------------------------------------------- values with a line break

  ghost predicate DistinctNames(es: seq<Entry>) {
    forall i, j :: 0 <= i < j < |es| ==> es[i].name != es[j].name
  }

  predicate RegisteredNames(es: seq<Entry>) {
    forall i :: 0 <= i < |es| ==> LeafChecks.IsSecretKey(es[i].name)
  }

  /** What the control plane can register: distinct well-formed keys with any values. */
  ghost predicate Registrable(es: seq<Entry>) {
    RegisteredNames(es) && DistinctNames(es)
  }

  /** Some other registrable set of secrets has the same preimage. */
  ghost predicate Ambiguous(es: seq<Entry>) {
    exists fs :: Registrable(fs) && multiset(fs) != multiset(es) && PreimageOf(fs) == PreimageOf(es)
  }

  /** `value` reads as a value, a line break, and an entry of a later key. */
  ghost predicate Splits(name: string, head: string, key: string, tail: string, value: string) {
    && LeafChecks.IsSecretKey(key) && Compare(name, key) == Less
    && value == head + "\n" + key + "=" + tail
  }

  ghost predicate Splittable(e: Entry) {
    exists head, key, tail :: Splits(e.name, head, key, tail, e.value)
  }

  /** The first entry with the second one's line folded into its value. */
  function Folded(es: seq<Entry>): seq<Entry>
    requires |es| >= 2
  {
    [Entry(es[0].name, es[0].value + "\n" + es[1].name + "=" + es[1].value)] + es[2..]
  }

  ghost function Names(es: seq<Entry>): set<string> {
    set i | 0 <= i < |es| :: es[i].name
  }

  lemma DistinctSnoc(es: seq<Entry>)
    requires es != []
    ensures DistinctNames(es) <==> DistinctNames(es[..|es| - 1]) && es[|es| - 1].name !in Names(es[..|es| - 1])
  {
    var init := es[..|es| - 1];
    assert forall i :: 0 <= i < |init| ==> es[i] == init[i] && init[i].name in Names(init);
  }

  lemma NamesSnoc(es: seq<Entry>)
    requires es != []
    ensures Names(es) == Names(es[..|es| - 1]) + {es[|es| - 1].name}
  {
    var init := es[..|es| - 1];
    forall n | n in Names(es) ensures n in Names(init) + {es[|es| - 1].name} {
      var i :| 0 <= i < |es| && es[i].name == n;
      assert i < |init| ==> init[i].name == n;
    }
    forall n | n in Names(init) ensures n in Names(es) {
      var i :| 0 <= i < |init| && init[i].name == n;
      assert es[i].name == n;
    }
  }

  lemma {:induction false} DistinctIffAllNames(es: seq<Entry>)
    ensures |Names(es)| <= |es|
    ensures DistinctNames(es) <==> |Names(es)| == |es|
  {
    if es == [] {
    } else {
      var init, last := es[..|es| - 1], es[|es| - 1].name;
      DistinctIffAllNames(init);
      NamesSnoc(es);
      DistinctSnoc(es);
      assert last in Names(init) ==> Names(init) + {last} == Names(init);
    }
  }

  lemma SameNames(a: seq<Entry>, b: seq<Entry>)
    requires forall e: Entry :: e in a <==> e in b
    ensures Names(a) == Names(b)
  {
    forall n | n in Names(a) ensures n in Names(b) {
      var i :| 0 <= i < |a| && a[i].name == n;
      assert a[i] in b;
    }
    forall n | n in Names(b) ensures n in Names(a) {
      var i :| 0 <= i < |b| && b[i].name == n;
      assert b[i] in a;
    }
  }

  lemma NamesDistinctAsMultiset(a: seq<Entry>, b: seq<Entry>)
    requires multiset(a) == multiset(b) && DistinctNames(a)
    ensures DistinctNames(b)
  {
    assert |a| == |multiset(a)| == |multiset(b)| == |b|;
    forall e: Entry ensures e in a <==> e in b {
      assert e in multiset(a) <==> e in multiset(b);
    }
    SameNames(a, b);
    DistinctIffAllNames(a);
    DistinctIffAllNames(b);
  }

  lemma RegistrableSorted(es: seq<Entry>)
    requires Registrable(es)
    ensures Registrable(Sorted(es)) && |Sorted(es)| == |es|
  {
    var sorted := Sorted(es);
    assert |sorted| == |multiset(sorted)| == |multiset(es)| == |es|;
    forall i | 0 <= i < |sorted| ensures LeafChecks.IsSecretKey(sorted[i].name) {
      assert sorted[i] in multiset(sorted);
      assert sorted[i] in multiset(es);
    }
    NamesDistinctAsMultiset(es, sorted);
  }

  lemma FoldedSorted(es: seq<Entry>, folded: seq<Entry>)
    requires |es| >= 2 && folded == Folded(es) && IsSorted(es)
    requires forall j :: 0 <= j < |folded| ==> Le(folded[0], folded[j])
    ensures IsSorted(folded)
  {
    assert forall j :: 0 < j < |folded| ==> folded[j] == es[j + 1];
  }

  lemma FoldedLine(n: string, v: string, m: string, w: string)
    ensures Line(Entry(n, v + "\n" + m + "=" + w)) == Line(Entry(n, v)) + Line(Entry(m, w))
  {
    var head := n + "=";
    Assoc(head, v, "\n");
    Assoc(head, v + "\n", m);
    Assoc(head, v + "\n" + m, "=");
    Assoc(head, v + "\n" + m + "=", w);
    Assoc(head + v + "\n", m, "=");
    Assoc(head + v + "\n", m + "=", w);
    Assoc(head + v + "\n", m + "=" + w, "\n");
  }

  lemma FoldedText(es: seq<Entry>)
    requires |es| >= 2
    ensures Serialize(Folded(es)) == Serialize(es)
  {
    assert es[1..][1..] == es[2..] && Folded(es)[1..] == es[2..];
    FoldedLine(es[0].name, es[0].value, es[1].name, es[1].value);
    Assoc(Line(es[0]), Line(es[1]), Serialize(es[2..]));
  }

  lemma SortedPreimage(es: seq<Entry>)
    requires es != [] && IsSorted(es)
    ensures PreimageOf(es) == Some(Serialize(es))
  {
    SortedIsSorted(es);
    SortedUnique(Sorted(es), es);
  }

  lemma FoldedFirst(es: seq<Entry>)
    requires |es| >= 2 && DistinctNames(es) && IsSorted(es)
    ensures forall j :: 0 <= j < |Folded(es)| ==> Le(Folded(es)[0], Folded(es)[j])
    ensures forall j :: 0 < j < |Folded(es)| ==> Folded(es)[0].name != Folded(es)[j].name
  {
    var folded := Folded(es);
    forall j | 0 < j < |folded| ensures Le(folded[0], folded[j]) && folded[0].name != folded[j].name {
      assert folded[j] == es[j + 1];
      assert Le(es[0], es[j + 1]);
      CompareEqual(es[0].name, es[j + 1].name);
    }
    LeTotal(folded[0], folded[0]);
  }

  lemma FoldedNames(es: seq<Entry>)
    requires |es| >= 2 && DistinctNames(es)
    requires forall j :: 0 < j < |Folded(es)| ==> Folded(es)[0].name != Folded(es)[j].name
    ensures DistinctNames(Folded(es)) && !AllDeliverable(Folded(es))
    ensures RegisteredNames(es) ==> RegisteredNames(Folded(es))
  {
    var folded := Folded(es);
    assert '\n' in folded[0].value;
    assert forall i, j :: 0 < i < j < |folded| ==> folded[i] == es[i + 1] && folded[j] == es[j + 1];
  }

  /** Folding the second line into the first value gives a smaller registrable set with the same preimage. */
  lemma LineBreakCollides(es: seq<Entry>)
    requires |es| >= 2 && DistinctNames(es) && IsSorted(es)
    ensures PreimageOf(Folded(es)) == PreimageOf(es)
    ensures |Folded(es)| == |es| - 1 && DistinctNames(Folded(es)) && !AllDeliverable(Folded(es))
    ensures RegisteredNames(es) ==> RegisteredNames(Folded(es))
  {
    var folded := Folded(es);
    FoldedFirst(es);
    FoldedSorted(es, folded);
    SortedPreimage(es);
    SortedPreimage(folded);
    FoldedText(es);
    FoldedNames(es);
  }

  lemma DifferentSizes(a: seq<Entry>, b: seq<Entry>)
    requires |a| != |b|
    ensures multiset(a) != multiset(b)
  {
    assert |multiset(a)| == |a| && |multiset(b)| == |b|;
  }

  /** Two or more secrets never have a preimage of their own. */
  lemma SeveralAmbiguous(es: seq<Entry>)
    requires |es| >= 2 && Registrable(es)
    ensures Ambiguous(es)
  {
    var sorted := Sorted(es);
    RegistrableSorted(es);
    SortedIsSorted(es);
    LineBreakCollides(sorted);
    PreimageOrderFree(sorted, es);
    var folded := Folded(sorted);
    DifferentSizes(folded, es);
    assert Registrable(folded) && PreimageOf(folded) == PreimageOf(es);
  }

  lemma FoldedPair(a: Entry, b: Entry, e: Entry)
    requires e.name == a.name && e.value == a.value + "\n" + b.name + "=" + b.value
    ensures Folded([a, b]) == [e]
  {
    assert [a, b][2..] == [];
  }

  lemma TwoSorted(a: Entry, b: Entry)
    requires Compare(a.name, b.name) == Less
    ensures IsSorted([a, b])
  {
    LeTotal(a, a);
    LeTotal(b, b);
  }

  lemma SplitCollides(e: Entry, head: string, key: string, tail: string)
    requires LeafChecks.IsSecretKey(e.name) && Splits(e.name, head, key, tail, e.value)
    ensures Ambiguous([e])
  {
    var fs := [Entry(e.name, head), Entry(key, tail)];
    CompareEqual(e.name, key);
    TwoSorted(fs[0], fs[1]);
    FoldedPair(fs[0], fs[1], e);
    LineBreakCollides(fs);
    DifferentSizes(fs, [e]);
    assert Registrable(fs);
  }

  lemma SingleSorted(e: Entry)
    ensures PreimageOf([e]) == Some(Line(e))
  {
    LeTotal(e, e);
    SortedPreimage([e]);
    assert Serialize([e]) == Line(e) + "" == Line(e);
  }

  lemma NextIsLater(a: Entry, b: Entry)
    requires Le(a, b) && a.name != b.name
    ensures Compare(a.name, b.name) == Less
  {
    CompareEqual(a.name, b.name);
  }

  /** The name ends at the first `=` in both readings. */
  lemma FirstNameShared(e: Entry, g: Entry, rest: string)
    requires LeafChecks.IsSecretKey(e.name) && LeafChecks.IsSecretKey(g.name) && Line(g) + rest == Line(e)
    ensures g.name == e.name && e.value + "\n" == g.value + "\n" + rest
  {
    var s := Line(e);
    assert '=' !in e.name && '=' !in g.name;
    assert s[..|e.name|] == e.name && s[|e.name| + 1..] == e.value + "\n";
    IndexOfUnique(s, '=', |e.name|);
    assert s == Line(g) + rest;
    assert s[..|g.name|] == g.name && s[|g.name| + 1..] == g.value + "\n" + rest;
    IndexOfUnique(s, '=', |g.name|);
  }

  lemma SameValue(e: Entry, g: Entry)
    requires g.name == e.name && e.value + "\n" == g.value + "\n" + ""
    ensures g == e
  {
    var s := e.value + "\n";
    assert s == g.value + "\n";
    assert e.value == s[..|s| - 1] == g.value;
  }

  lemma EndsInBreak(second: Entry, after: string, tail: string, rest: string)
    requires rest == Line(second) + after && (after != "" ==> after[|after| - 1] == '\n')
    requires tail == if after == "" then second.value else second.value + "\n" + after[..|after| - 1]
    ensures second.name + "=" + tail + "\n" == rest
  {
    if after == "" {
    } else {
      assert after == after[..|after| - 1] + "\n";
    }
  }

  lemma SecondInValue(e: Entry, head: string, second: Entry, after: string, rest: string)
    requires e.value + "\n" == head + "\n" + rest && rest == Line(second) + after
    requires LeafChecks.IsSecretKey(second.name) && Compare(e.name, second.name) == Less
    requires after != "" ==> after[|after| - 1] == '\n'
    ensures Splittable(e)
  {
    var tail := if after == "" then second.value else second.value + "\n" + after[..|after| - 1];
    var value := head + "\n" + second.name + "=" + tail;
    EndsInBreak(second, after, tail, rest);
    assert value + "\n" == head + "\n" + (second.name + "=" + tail + "\n") == e.value + "\n";
    assert e.value == (e.value + "\n")[..|e.value|] == value;
    assert Splits(e.name, head, second.name, tail, e.value);
  }

  lemma {:induction false} SerializeEnds(es: seq<Entry>)
    requires es != []
    ensures var s := Serialize(es); s != "" && s[|s| - 1] == '\n'
    decreases |es|
  {
    if |es| == 1 {
      assert Serialize(es) == Line(es[0]) + "";
    } else {
      SerializeEnds(es[1..]);
    }
  }

  lemma ListingSplits(e: Entry, gs: seq<Entry>)
    requires LeafChecks.IsSecretKey(e.name) && Registrable(gs) && IsSorted(gs) && gs != []
    requires gs != [e] && Serialize(gs) == Line(e)
    ensures Splittable(e)
  {
    FirstNameShared(e, gs[0], Serialize(gs[1..]));
    if |gs| == 1 {
      SameValue(e, gs[0]);
      assert false;
    } else {
      NextIsLater(gs[0], gs[1]);
      assert gs[1..][1..] == gs[2..];
      if |gs| > 2 {
        SerializeEnds(gs[2..]);
      }
      SecondInValue(e, gs[0].value, gs[1], Serialize(gs[2..]), Serialize(gs[1..]));
    }
  }

  /** Any other set with the preimage of one secret has a first entry that ends within the value. */
  lemma CollisionSplits(e: Entry, fs: seq<Entry>)
    requires LeafChecks.IsSecretKey(e.name)
    requires Registrable(fs) && multiset(fs) != multiset([e]) && PreimageOf(fs) == PreimageOf([e])
    ensures Splittable(e)
  {
    SingleSorted(e);
    RegistrableSorted(fs);
    SortedIsSorted(fs);
    ListingSplits(e, Sorted(fs));
  }

  /** A single secret shares its preimage exactly when its value can be split at a later key. */
  lemma SingleAmbiguousIff(e: Entry)
    requires LeafChecks.IsSecretKey(e.name)
    ensures Ambiguous([e]) <==> Splittable(e)
  {
    if Splittable(e) {
      var head, key, tail :| Splits(e.name, head, key, tail, e.value);
      SplitCollides(e, head, key, tail);
    }
    if Ambiguous([e]) {
      var fs :| Registrable(fs) && multiset(fs) != multiset([e]) && PreimageOf(fs) == PreimageOf([e]);
      CollisionSplits(e, fs);
    }
  }

  /**
   A set of secrets shares its preimage with another exactly when it holds two or more secrets, or
   one whose value contains a line break followed by a later key and `=`.
   */
  lemma AmbiguousIff(es: seq<Entry>)
    requires Registrable(es)
    ensures Ambiguous(es) <==> |es| >= 2 || (|es| == 1 && Splittable(es[0]))
  {
    if |es| >= 2 {
      SeveralAmbiguous(es);
    } else if |es| == 1 {
      assert es == [es[0]];
      SingleAmbiguousIff(es[0]);
    } else {
      assert forall fs :: PreimageOf(fs) == PreimageOf(es) ==> fs == es;
    }
  }

  /** `A=1` with `B=2` has the preimage of one secret `A`; a line break alone collides with nothing. */
  lemma LineBreakExamples()
    ensures Ambiguous([Entry("A", "1\nB=2")]) && !Ambiguous([Entry("a", "x\ny")])
  {
    var e, f := Entry("A", "1\nB=2"), Entry("a", "x\ny");
    assert Compare("A", "B") == Less;
    assert Splits(e.name, "1", "B", "2", e.value);
    SingleAmbiguousIff(e);
    forall head, key, tail ensures !Splits(f.name, head, key, tail, f.value) {
      var value := head + "\n" + key + "=" + tail;
      assert value[|head| + 1 + |key|] == '=' && '=' !in f.value;
    }
    SingleAmbiguousIff(f);
  }

  /** Only the empty set has no preimage. */
  lemma PreimageNoneIff(es: seq<Entry>)
    ensures PreimageOf(es) == None <==> es == []
  {
  }

  lemma TwoLines(a: Entry, b: Entry)
    ensures Serialize([a, b]) == Line(a) + Line(b)
  {
    assert [a, b][1..] == [b] && [b][1..] == [];
    assert Serialize([b]) == Line(b) + "" == Line(b);
  }

  /** The lines stand in the order of their keys, whichever entry arrives first. */
  lemma PairPreimage(a: Entry, b: Entry)
    requires Compare(a.name, b.name) == Less
    ensures PreimageOf([b, a]) == PreimageOf([a, b])
         == Some((a.name + "=" + a.value + "\n") + (b.name + "=" + b.value + "\n"))
  {
    TwoSorted(a, b);
    assert multiset([b, a]) == multiset([a, b]);
    PreimageOrderFree([b, a], [a, b]);
    SortedPreimage([a, b]);
    TwoLines(a, b);
  }
}
