/**
 The walk that finds every `allow_private_backends: true` (src/publish_guard.rs,
 `collect_private_backends`). One path buffer is shared by the whole walk: each step pushes onto it
 and truncates it back.
 */
module PrivateBackends {
  import opened Json

  const PRIVATE_BACKENDS_KEY: string := "allow_private_backends"

  // ---------------------------------------------------------------- the walk

  function Extend(path: string, key: string): string {
    if path == "" then key else path + "." + key
  }

  function CollectedItems(items: seq<Json>, path: string, out: seq<string>): seq<string>
    decreases items
  {
    if items == [] then out else CollectedItems(items[1..], path, Collected(items[0], path, out))
  }

  function Collected(v: Json, path: string, out: seq<string>): seq<string>
    decreases v
  {
    match v
    case Obj(ms) => CollectedMembers(ms, path, out)
    case Arr(items) => CollectedItems(items, path + "[]", out)
    case _ => out
  }

  function CollectedMember(m: Member, path: string, out: seq<string>): seq<string>
    decreases m
  {
    var p := Extend(path, m.key);
    if m.key == PRIVATE_BACKENDS_KEY then (if m.value == Bool(true) && p !in out then out + [p] else out)
    else Collected(m.value, p, out)
  }

  function CollectedMembers(ms: seq<Member>, path: string, out: seq<string>): seq<string>
    decreases ms
  {
    if ms == [] then out else CollectedMembers(ms[1..], path, CollectedMember(ms[0], path, out))
  }

  class Walk {
    var path: string
    var out: seq<string>

    constructor ()
      ensures path == "" && out == []
    {
      path, out := "", [];
    }

    method Collect(v: Json)
      modifies this
      ensures path == old(path)
      ensures out == Collected(v, old(path), old(out))
      decreases v
    {
      match v
      case Obj(ms) => CollectMembers(ms);
      case Arr(items) => CollectItems(items);
      case _ =>
    }

    method CollectMembers(ms: seq<Member>)
      modifies this
      ensures path == old(path)
      ensures out == CollectedMembers(ms, old(path), old(out))
      decreases ms
    {
      for k := 0 to |ms|
        invariant path == old(path)
        invariant CollectedMembers(ms[k..], path, out) == CollectedMembers(ms, path, old(out))
      {
        var key, child := ms[k].key, ms[k].value;
        var base := |path|;
        if path != "" {
          path := path + ".";
        }
        path := path + key;
        assert path == Extend(old(path), key);
        if key == PRIVATE_BACKENDS_KEY {
          if child == Bool(true) && path !in out {
            out := out + [path];
          }
        } else {
          Collect(child);
        }
        path := path[..base];
        assert ms[k..][1..] == ms[k + 1..];
      }
    }

    method CollectItems(items: seq<Json>)
      modifies this
      ensures path == old(path)
      ensures out == CollectedItems(items, old(path) + "[]", old(out))
      decreases items
    {
      var base := |path|;
      path := path + "[]";
      for k := 0 to |items|
        invariant path == old(path) + "[]"
        invariant CollectedItems(items[k..], path, out) == CollectedItems(items, path, old(out))
      {
        Collect(items[k]);
        assert items[k..][1..] == items[k + 1..];
      }
      path := path[..base];
    }
  }

  // ---------------------------------------------------------------- where the flags are

  /** One step into a document: an object member, or any element of a list. */
  datatype Step = Key(name: string) | Item

  function Render(path: string, steps: seq<Step>): string
    decreases |steps|
  {
    if steps == [] then path
    else match steps[0]
      case Key(k) => Render(Extend(path, k), steps[1..])
      case Item => Render(path + "[]", steps[1..])
  }

  ghost predicate FlagIn(m: Member, steps: seq<Step>)
    decreases |steps|, 1
  {
    if m.key == PRIVATE_BACKENDS_KEY then steps == [] && m.value == Bool(true) else FlagAt(m.value, steps)
  }

  /** `steps` lead to an `allow_private_backends: true` that no other such key stands above. */
  ghost predicate FlagAt(v: Json, steps: seq<Step>)
    decreases |steps|, 0
  {
    steps != [] &&
    match steps[0]
    case Key(k) => v.Obj? && exists m <- v.members :: m.key == k && FlagIn(m, steps[1..])
    case Item => v.Arr? && exists item <- v.items :: FlagAt(item, steps[1..])
  }

  /** `p` is the rendered path of some flag below `v`, which itself sits at `path`. */
  ghost predicate Flagged(v: Json, path: string, p: string) {
    exists steps :: FlagAt(v, steps) && p == Render(path, steps)
  }

  ghost predicate MemberFlagged(m: Member, path: string, p: string) {
    exists steps :: FlagIn(m, steps) && p == Render(Extend(path, m.key), steps)
  }

  lemma ObjFlagged(ms: seq<Member>, path: string, p: string)
    ensures Flagged(Obj(ms), path, p) <==> exists m <- ms :: MemberFlagged(m, path, p)
  {
    if steps: seq<Step> :| FlagAt(Obj(ms), steps) && p == Render(path, steps) {
      var m: Member :| m in ms && m.key == steps[0].name && FlagIn(m, steps[1..]);
      assert MemberFlagged(m, path, p);
    }
    if m: Member :| m in ms && MemberFlagged(m, path, p) {
      var steps: seq<Step> :| FlagIn(m, steps) && p == Render(Extend(path, m.key), steps);
      var all := [Key(m.key)] + steps;
      assert all[1..] == steps;
      assert FlagAt(Obj(ms), all);
    }
  }

  lemma ArrFlagged(items: seq<Json>, path: string, p: string)
    ensures Flagged(Arr(items), path, p) <==> exists item <- items :: Flagged(item, path + "[]", p)
  {
    if steps: seq<Step> :| FlagAt(Arr(items), steps) && p == Render(path, steps) {
      var item: Json :| item in items && FlagAt(item, steps[1..]);
      assert Flagged(item, path + "[]", p);
    }
    if item: Json :| item in items && Flagged(item, path + "[]", p) {
      var steps: seq<Step> :| FlagAt(item, steps) && p == Render(path + "[]", steps);
      var all := [Item] + steps;
      assert all[1..] == steps;
      assert FlagAt(Arr(items), all);
    }
  }

  lemma ScalarNotFlagged(v: Json, path: string, p: string)
    requires !v.Obj? && !v.Arr?
    ensures !Flagged(v, path, p)
  {
  }

  lemma PrivateMemberFlagged(m: Member, path: string, p: string)
    ensures MemberFlagged(m, path, p) <==>
      if m.key == PRIVATE_BACKENDS_KEY then m.value == Bool(true) && p == Extend(path, m.key)
      else Flagged(m.value, Extend(path, m.key), p)
  {
    if m.key == PRIVATE_BACKENDS_KEY && m.value == Bool(true) && p == Extend(path, m.key) {
      assert FlagIn(m, []);
    }
    if m.key != PRIVATE_BACKENDS_KEY && Flagged(m.value, Extend(path, m.key), p) {
      var steps: seq<Step> :| FlagAt(m.value, steps) && p == Render(Extend(path, m.key), steps);
      assert FlagIn(m, steps);
    }
  }

  // ---------------------------------------------------------------- the walk finds exactly the flags

  lemma {:induction false} MembersExactly(ms: seq<Member>, path: string, out: seq<string>, p: string)
    ensures p in CollectedMembers(ms, path, out) <==> p in out || exists m <- ms :: MemberFlagged(m, path, p)
    decreases ms
  {
    if ms == [] {
    } else {
      var m := ms[0];
      if m.key != PRIVATE_BACKENDS_KEY {
        CollectedExactly(m.value, Extend(path, m.key), out, p);
      }
      PrivateMemberFlagged(m, path, p);
      MembersExactly(ms[1..], path, CollectedMember(m, path, out), p);
      assert ms == [m] + ms[1..];
    }
  }

  lemma {:induction false} CollectedExactly(v: Json, path: string, out: seq<string>, p: string)
    ensures p in Collected(v, path, out) <==> p in out || Flagged(v, path, p)
    decreases v
  {
    match v
    case Obj(ms) =>
      MembersExactly(ms, path, out, p);
      ObjFlagged(ms, path, p);
    case Arr(items) =>
      ItemsExactly(items, path + "[]", out, p);
      ArrFlagged(items, path, p);
    case _ => ScalarNotFlagged(v, path, p);
  }

  lemma {:induction false} ItemsExactly(items: seq<Json>, path: string, out: seq<string>, p: string)
    ensures p in CollectedItems(items, path, out) <==> p in out || exists item <- items :: Flagged(item, path, p)
    decreases items
  {
    if items == [] {
    } else {
      CollectedExactly(items[0], path, out, p);
      ItemsExactly(items[1..], path, Collected(items[0], path, out), p);
      assert items == [items[0]] + items[1..];
    }
  }

  // ---------------------------------------------------------------- each path once

  ghost predicate Distinct(paths: seq<string>) {
    forall i, j :: 0 <= i < j < |paths| ==> paths[i] != paths[j]
  }

  lemma {:induction false} MembersDistinct(ms: seq<Member>, path: string, out: seq<string>)
    requires Distinct(out)
    ensures Distinct(CollectedMembers(ms, path, out))
    decreases ms
  {
    if ms == [] {
    } else {
      var m := ms[0];
      if m.key != PRIVATE_BACKENDS_KEY {
        CollectedDistinct(m.value, Extend(path, m.key), out);
      }
      MembersDistinct(ms[1..], path, CollectedMember(m, path, out));
    }
  }

  lemma {:induction false} CollectedDistinct(v: Json, path: string, out: seq<string>)
    requires Distinct(out)
    ensures Distinct(Collected(v, path, out))
    decreases v
  {
    match v
    case Obj(ms) => MembersDistinct(ms, path, out);
    case Arr(items) => ItemsDistinct(items, path + "[]", out);
    case _ =>
  }

  lemma {:induction false} ItemsDistinct(items: seq<Json>, path: string, out: seq<string>)
    requires Distinct(out)
    ensures Distinct(CollectedItems(items, path, out))
    decreases items
  {
    if items == [] {
    } else {
      CollectedDistinct(items[0], path, out);
      ItemsDistinct(items[1..], path, Collected(items[0], path, out));
    }
  }

  /** From the root the walk reports every flag's path once and nothing else. */
  lemma WalkRefinesPathSet(v: Json)
    ensures Distinct(Collected(v, "", []))
    ensures forall p :: p in Collected(v, "", []) <==> Flagged(v, "", p)
  {
    CollectedDistinct(v, "", []);
    forall p
      ensures p in Collected(v, "", []) <==> Flagged(v, "", p)
    {
      CollectedExactly(v, "", [], p);
    }
  }

  // ---------------------------------------------------------------- flags beneath a flag's key

  ghost predicate SetIn(m: Member, steps: seq<Step>)
    decreases |steps|, 1
  {
    if steps == [] then m.key == PRIVATE_BACKENDS_KEY && m.value == Bool(true) else SetAt(m.value, steps)
  }

  /** `steps` lead to an `allow_private_backends: true`, wherever it stands. */
  ghost predicate SetAt(v: Json, steps: seq<Step>)
    decreases |steps|, 0
  {
    steps != [] &&
    match steps[0]
    case Key(k) => v.Obj? && exists m <- v.members :: m.key == k && SetIn(m, steps[1..])
    case Item => v.Arr? && exists item <- v.items :: SetAt(item, steps[1..])
  }

  /** The steps pass through a member named `allow_private_backends` before their last. */
  predicate Beneath(steps: seq<Step>) {
    exists i :: 0 <= i < |steps| - 1 && steps[i] == Key(PRIVATE_BACKENDS_KEY)
  }

  lemma BeneathStep(steps: seq<Step>)
    requires steps != []
    ensures Beneath(steps) <==> (|steps| > 1 && steps[0] == Key(PRIVATE_BACKENDS_KEY)) || Beneath(steps[1..])
  {
    if i :| 0 <= i < |steps| - 1 && steps[i] == Key(PRIVATE_BACKENDS_KEY) {
      assert i > 0 ==> steps[1..][i - 1] == steps[i];
    }
    if i :| 0 <= i < |steps[1..]| - 1 && steps[1..][i] == Key(PRIVATE_BACKENDS_KEY) {
      assert steps[i + 1] == steps[1..][i];
    }
  }

  /** What the walk calls a flag is one that stands beneath no such member. */
  lemma {:induction false} FlagAtIff(v: Json, steps: seq<Step>)
    ensures FlagAt(v, steps) <==> SetAt(v, steps) && !Beneath(steps)
    decreases |steps|
  {
    if steps == [] {
    } else {
      BeneathStep(steps);
      match steps[0]
      case Key(k) =>
        forall m: Member | m.key == k
          ensures FlagIn(m, steps[1..]) <==> SetIn(m, steps[1..]) && !Beneath(steps)
        {
          FlagAtIff(m.value, steps[1..]);
        }
      case Item =>
        forall item: Json
          ensures FlagAt(item, steps[1..]) <==> SetAt(item, steps[1..]) && !Beneath(steps[1..])
        {
          FlagAtIff(item, steps[1..]);
        }
    }
  }

  /** It reports nothing exactly when every flag in the document stands beneath such a member. */
  lemma NothingCollectedIff(v: Json)
    ensures Collected(v, "", []) == [] <==> forall steps :: SetAt(v, steps) ==> Beneath(steps)
  {
    var out := Collected(v, "", []);
    WalkRefinesPathSet(v);
    if out != [] {
      assert Flagged(v, "", out[0]);
      var steps: seq<Step> :| FlagAt(v, steps) && out[0] == Render("", steps);
      FlagAtIff(v, steps);
    }
    if steps: seq<Step> :| SetAt(v, steps) && !Beneath(steps) {
      FlagAtIff(v, steps);
      assert Render("", steps) in out;
    }
  }

  ghost predicate Listed(v: Json, steps: seq<Step>) {
    Render("", steps) in Collected(v, "", [])
  }

  /** A flag's path is listed exactly when a flag beneath no such member has that path. */
  lemma ListedIff(v: Json, steps: seq<Step>)
    ensures Listed(v, steps)
       <==> exists top :: SetAt(v, top) && !Beneath(top) && Render("", top) == Render("", steps)
  {
    WalkRefinesPathSet(v);
    if Listed(v, steps) {
      var top :| FlagAt(v, top) && Render("", top) == Render("", steps);
      FlagAtIff(v, top);
    }
    if top :| SetAt(v, top) && !Beneath(top) && Render("", top) == Render("", steps) {
      FlagAtIff(v, top);
      assert Flagged(v, "", Render("", top));
    }
  }

  /** A flag beneath another is not listed: this document sets the flag and passes the walk. */
  const NESTED: Json := Obj([Member(PRIVATE_BACKENDS_KEY, Obj([Member(PRIVATE_BACKENDS_KEY, Bool(true))]))])

  lemma NestedFlagMissed()
    ensures SetAt(NESTED, [Key(PRIVATE_BACKENDS_KEY), Key(PRIVATE_BACKENDS_KEY)]) && Collected(NESTED, "", []) == []
  {
    var m := Member(PRIVATE_BACKENDS_KEY, Bool(true));
    var key := Key(PRIVATE_BACKENDS_KEY);
    assert [key, key][1..] == [key] && [key][1..] == [];
    assert m in [m] && SetIn(m, []);
    assert SetAt(Obj([m]), [key]);
    var top := Member(PRIVATE_BACKENDS_KEY, Obj([m]));
    assert top in [top] && SetIn(top, [key]);
    assert CollectedMembers([top], "", []) == CollectedMembers([top][1..], "", []) == [];
  }

  /** Any keys at all: when none stands beneath such a member, every flag is listed. */
  lemma EveryFlagListed(v: Json)
    requires forall steps :: SetAt(v, steps) ==> !Beneath(steps)
    ensures forall steps :: SetAt(v, steps) ==> Listed(v, steps)
  {
    forall steps | SetAt(v, steps)
      ensures Listed(v, steps)
    {
      ListedIff(v, steps);
    }
  }
}
