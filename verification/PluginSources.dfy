/**
 The four places that decide which `plugins[]` entries come from a third-party registry
 (src/target_validate.rs, src/plugin_layout.rs, src/publish_guard.rs).
 */
module PluginSources {
  import opened Text
  import opened Json
  import opened GuardScan
  import opened PluginRefs

  datatype Source = Oci(reference: string) | Path(path: string)

  datatype Entry = Entry(index: nat, source: Source)

  datatype Policy = FirstPartyOnly | AllowCustom

  datatype TargetViolation =
    | PluginNotFirstParty(index: nat)
    | PluginSourceNotSupported(index: nat)
    | PluginNotInRelease(index: nat)

  datatype Surface =
    | RegistrySetting(key: string)
    | SourceOci(index: nat)
    | TrustedKeys(index: nat)
    | SignaturePolicy(index: nat)

  function Plugins(cfg: Json): seq<Json> {
    AsArray(Get(cfg, "plugins")).GetOr([])
  }

  // ---------------------------------------------------------------- the reference computation

  /** The entry's OCI source is a string that names no first-party plugin. */
  predicate ThirdParty(entry: Json) {
    var oci := AsStr(Pointer(entry, ["source", "oci"]));
    oci.Some? && !IsFirstPartyPluginRef(oci.value)
  }

  /** The indices, counted from `at`, of the entries with a third-party OCI source. */
  function ThirdPartyFrom(list: seq<Json>, at: nat): seq<nat> {
    if list == [] then []
    else if ThirdParty(list[0]) then [at] + ThirdPartyFrom(list[1..], at + 1)
    else ThirdPartyFrom(list[1..], at + 1)
  }

  function ThirdPartyIndices(cfg: Json): seq<nat> {
    ThirdPartyFrom(Plugins(cfg), 0)
  }

  // ---------------------------------------------------------------- plugin_entries, oci_plugin_sources

  function SourceOf(entry: Json): Option<Source> {
    var source := Get(entry, "source");
    if source.None? then None else
    var oci, path := AsStr(Get(source.value, "oci")), AsStr(Get(source.value, "path"));
    if oci.Some? then Some(Oci(oci.value)) else if path.Some? then Some(Path(path.value)) else None
  }

  function EntriesFrom(list: seq<Json>, at: nat): seq<Entry> {
    if list == [] then []
    else
      var s := SourceOf(list[0]);
      if s.Some? then [Entry(at, s.value)] + EntriesFrom(list[1..], at + 1) else EntriesFrom(list[1..], at + 1)
  }

  method PluginEntries(cfg: Json) returns (out: seq<Entry>)
    ensures out == EntriesFrom(Plugins(cfg), 0)
  {
    out := [];
    var list := Plugins(cfg);
    for i := 0 to |list|
      invariant out + EntriesFrom(list[i..], i) == EntriesFrom(list, 0)
    {
      assert list[i..][0] == list[i] && list[i..][1..] == list[i + 1..];
      var source := Get(list[i], "source");
      if source.None? {
        continue;
      }
      var oci := AsStr(Get(source.value, "oci"));
      var path := AsStr(Get(source.value, "path"));
      if oci.Some? {
        out := out + [Entry(i, Oci(oci.value))];
      } else if path.Some? {
        out := out + [Entry(i, Path(path.value))];
      }
    }
  }

  /** The OCI entries among `entries`, as index and reference. */
  function OciOnly(entries: seq<Entry>): seq<(nat, string)> {
    if entries == [] then []
    else
      var rest := OciOnly(entries[1..]);
      if entries[0].source.Oci? then [(entries[0].index, entries[0].source.reference)] + rest else rest
  }

  function OciPluginSources(cfg: Json): seq<(nat, string)> {
    OciOnly(EntriesFrom(Plugins(cfg), 0))
  }

  /** First-party sources, and the rest. */
  function SplitSources(sources: seq<(nat, string)>): (seq<(nat, string)>, seq<(nat, string)>) {
    if sources == [] then ([], [])
    else
      var (first, rest) := SplitSources(sources[1..]);
      if IsFirstPartyPluginRef(sources[0].1) then ([sources[0]] + first, rest) else (first, [sources[0]] + rest)
  }

  // ---------------------------------------------------------------- validate_against_gateway

  predicate Contains(s: string, pat: string) {
    Find(s, pat).Some?
  }

  predicate Baked(path: string, bakedIds: seq<string>) {
    exists i :: 0 <= i < |bakedIds|
      && (Contains(path, "/" + bakedIds[i] + "/") || HasSuffix(path, bakedIds[i]))
  }

  function EntryViolation(e: Entry, policy: Policy, bakedIds: seq<string>): seq<TargetViolation> {
    match e.source
    case Oci(r) =>
      if policy == FirstPartyOnly && !IsFirstPartyPluginRef(r) then [PluginNotFirstParty(e.index)] else []
    case Path(p) =>
      if bakedIds == [] then [PluginSourceNotSupported(e.index)]
      else if !Baked(p, bakedIds) then [PluginNotInRelease(e.index)]
      else []
  }

  function EntryViolations(entries: seq<Entry>, policy: Policy, bakedIds: seq<string>): seq<TargetViolation> {
    if entries == [] then []
    else EntryViolation(entries[0], policy, bakedIds) + EntryViolations(entries[1..], policy, bakedIds)
  }

  /** One round of the loop. */
  method ValidateEntry(e: Entry, policy: Policy, bakedIds: seq<string>) returns (added: seq<TargetViolation>)
    ensures added == EntryViolation(e, policy, bakedIds)
  {
    added := [];
    match e.source
    case Oci(reference) =>
      if policy == FirstPartyOnly && !IsFirstPartyPluginRef(reference) {
        added := [PluginNotFirstParty(e.index)];
      }
    case Path(path) =>
      if bakedIds == [] {
        return [PluginSourceNotSupported(e.index)];
      }
      if !Baked(path, bakedIds) {
        added := [PluginNotInRelease(e.index)];
      }
  }

  /** The plugin loop of `validate_against_gateway`. */
  method ValidatePlugins(cfg: Json, policy: Policy, bakedIds: seq<string>) returns (violations: seq<TargetViolation>)
    ensures violations == EntryViolations(EntriesFrom(Plugins(cfg), 0), policy, bakedIds)
  {
    violations := [];
    var entries := PluginEntries(cfg);
    for i := 0 to |entries|
      invariant violations + EntryViolations(entries[i..], policy, bakedIds) == EntryViolations(entries, policy, bakedIds)
    {
      assert entries[i..][0] == entries[i] && entries[i..][1..] == entries[i + 1..];
      var added := ValidateEntry(entries[i], policy, bakedIds);
      violations := violations + added;
    }
  }

  function NotFirstPartyIndices(vs: seq<TargetViolation>): seq<nat> {
    if vs == [] then []
    else if vs[0].PluginNotFirstParty? then [vs[0].index] + NotFirstPartyIndices(vs[1..])
    else NotFirstPartyIndices(vs[1..])
  }

  // ---------------------------------------------------------------- custom_plugin_surfaces

  const REGISTRY_KEYS_ANY_PLAN: seq<string> := [
    "cache_dir", "revocation_list_path", "require_integrity_anchor", "default_signature_policy"]
  const MANAGED_SIGNATURE_POLICY: string := "enforce"

  predicate SetsSomething(v: Json) {
    match v
    case Null => false
    case Arr(items) => items != []
    case Obj(ms) => ms != []
    case _ => true
  }

  function RegistryMembers(cfg: Json): seq<Member> {
    var registry := Pointer(cfg, ["gateway", "plugin_registry"]);
    if registry.Some? && registry.value.Obj? then registry.value.members else []
  }

  function RegistrySurfaces(ms: seq<Member>): seq<Surface> {
    if ms == [] then []
    else if ms[0].key !in REGISTRY_KEYS_ANY_PLAN && SetsSomething(ms[0].value)
    then [RegistrySetting(ms[0].key)] + RegistrySurfaces(ms[1..])
    else RegistrySurfaces(ms[1..])
  }

  function EntrySurfaces(entry: Json, at: nat): seq<Surface> {
    var keys := Pointer(entry, ["signature", "trusted_keys"]);
    var policy := Pointer(entry, ["signature", "policy"]);
    (if ThirdParty(entry) then [SourceOci(at)] else [])
    + (if keys.Some? && SetsSomething(keys.value) then [TrustedKeys(at)] else [])
    + (if policy.Some? && SetsSomething(policy.value) && policy.value != Str(MANAGED_SIGNATURE_POLICY)
       then [SignaturePolicy(at)] else [])
  }

  function SurfacesFrom(list: seq<Json>, at: nat): seq<Surface> {
    if list == [] then [] else EntrySurfaces(list[0], at) + SurfacesFrom(list[1..], at + 1)
  }

  /** One round of the loop over `plugins[]`. */
  method SurfacesOf(entry: Json, at: nat) returns (surfaces: seq<Surface>)
    ensures surfaces == EntrySurfaces(entry, at)
  {
    surfaces := [];
    var oci := AsStr(Pointer(entry, ["source", "oci"]));
    if oci.Some? && !IsFirstPartyPluginRef(oci.value) {
      surfaces := surfaces + [SourceOci(at)];
    }
    var keys := Pointer(entry, ["signature", "trusted_keys"]);
    if keys.Some? && SetsSomething(keys.value) {
      surfaces := surfaces + [TrustedKeys(at)];
    }
    var policy := Pointer(entry, ["signature", "policy"]);
    if policy.Some? && SetsSomething(policy.value) && policy.value != Str(MANAGED_SIGNATURE_POLICY) {
      surfaces := surfaces + [SignaturePolicy(at)];
    }
  }

  method RegistryLoop(registry: seq<Member>) returns (surfaces: seq<Surface>)
    ensures surfaces == RegistrySurfaces(registry)
  {
    surfaces := [];
    for i := 0 to |registry|
      invariant surfaces + RegistrySurfaces(registry[i..]) == RegistrySurfaces(registry)
    {
      assert registry[i..][0] == registry[i] && registry[i..][1..] == registry[i + 1..];
      if registry[i].key !in REGISTRY_KEYS_ANY_PLAN && SetsSomething(registry[i].value) {
        surfaces := surfaces + [RegistrySetting(registry[i].key)];
      }
    }
  }

  method EntryLoop(list: seq<Json>, before: seq<Surface>) returns (surfaces: seq<Surface>)
    ensures surfaces == before + SurfacesFrom(list, 0)
  {
    surfaces := before;
    for i := 0 to |list|
      invariant surfaces + SurfacesFrom(list[i..], i) == before + SurfacesFrom(list, 0)
    {
      assert list[i..][0] == list[i] && list[i..][1..] == list[i + 1..];
      var added := SurfacesOf(list[i], i);
      surfaces := surfaces + added;
    }
  }

  method CustomPluginSurfaces(cfg: Json) returns (surfaces: seq<Surface>)
    ensures surfaces == RegistrySurfaces(RegistryMembers(cfg)) + SurfacesFrom(Plugins(cfg), 0)
  {
    surfaces := RegistryLoop(RegistryMembers(cfg));
    surfaces := EntryLoop(Plugins(cfg), surfaces);
  }

  function SourceOciIndices(ss: seq<Surface>): seq<nat> {
    if ss == [] then []
    else if ss[0].SourceOci? then [ss[0].index] + SourceOciIndices(ss[1..])
    else SourceOciIndices(ss[1..])
  }

  // ---------------------------------------------------------------- they agree

  lemma PointerOne(v: Json, token: string)
    ensures Pointer(v, [token]) == Child(v, token)
  {
    assert [token][1..] == [];
  }

  lemma WordsAreNoIndices()
    ensures ParseU64("source") == None && ParseU64("oci") == None
  {
    assert !IsDigit("source"[0]) && !IsDigit("oci"[0]);
  }

  /** A pointer into an entry and nested lookups read the same OCI source. */
  lemma SourceIsPointer(entry: Json)
    ensures AsStr(Pointer(entry, ["source", "oci"]))
         == match SourceOf(entry) case Some(Oci(r)) => Some(r) case _ => None
  {
    WordsAreNoIndices();
    var path := ["source", "oci"];
    assert path[1..] == ["oci"] && path[1..][1..] == [];
    var source := Child(entry, "source");
    assert source == Get(entry, "source");
    if source.Some? {
      assert Child(source.value, "oci") == Get(source.value, "oci");
      PointerOne(source.value, "oci");
      assert Pointer(entry, path) == Child(source.value, "oci");
    }
  }

  function Indices(sources: seq<(nat, string)>): seq<nat> {
    if sources == [] then [] else [sources[0].0] + Indices(sources[1..])
  }

  lemma SplitCons(x: (nat, string), rest: seq<(nat, string)>)
    ensures Indices(SplitSources([x] + rest).1)
         == (if IsFirstPartyPluginRef(x.1) then [] else [x.0]) + Indices(SplitSources(rest).1)
  {
    assert ([x] + rest)[1..] == rest;
    var second := SplitSources(rest).1;
    assert ([x] + second)[1..] == second;
  }

  lemma {:induction false} SplitNamesThirdParty(list: seq<Json>, at: nat)
    ensures Indices(SplitSources(OciOnly(EntriesFrom(list, at))).1) == ThirdPartyFrom(list, at)
    decreases |list|
  {
    if list == [] {
    } else {
      SplitNamesThirdParty(list[1..], at + 1);
      SourceIsPointer(list[0]);
      var s, rest := SourceOf(list[0]), EntriesFrom(list[1..], at + 1);
      if s.Some? {
        assert ([Entry(at, s.value)] + rest)[1..] == rest;
        if s.value.Oci? {
          SplitCons((at, s.value.reference), OciOnly(rest));
        }
      }
    }
  }

  /** Nothing is lost or repeated by the split. */
  lemma {:induction false} SplitPartitions(sources: seq<(nat, string)>)
    ensures var (first, rest) := SplitSources(sources);
            && multiset(sources) == multiset(first) + multiset(rest)
            && (forall x <- first :: IsFirstPartyPluginRef(x.1))
            && (forall x <- rest :: !IsFirstPartyPluginRef(x.1))
    decreases |sources|
  {
    if sources == [] {
    } else {
      SplitPartitions(sources[1..]);
      assert sources == [sources[0]] + sources[1..];
    }
  }

  lemma ViolationsAppend(a: seq<TargetViolation>, b: seq<TargetViolation>)
    requires |a| <= 1
    ensures NotFirstPartyIndices(a + b) == NotFirstPartyIndices(a) + NotFirstPartyIndices(b)
  {
    if a == [] {
      assert a + b == b;
    } else {
      assert (a + b)[1..] == b && a[1..] == [];
    }
  }

  lemma {:induction false} ViolationsNameThirdParty(list: seq<Json>, at: nat, bakedIds: seq<string>)
    ensures NotFirstPartyIndices(EntryViolations(EntriesFrom(list, at), FirstPartyOnly, bakedIds)) == ThirdPartyFrom(list, at)
    decreases |list|
  {
    if list == [] {
    } else {
      ViolationsNameThirdParty(list[1..], at + 1, bakedIds);
      SourceIsPointer(list[0]);
      var s, rest := SourceOf(list[0]), EntriesFrom(list[1..], at + 1);
      if s.Some? {
        assert ([Entry(at, s.value)] + rest)[1..] == rest;
        ViolationsAppend(EntryViolation(Entry(at, s.value), FirstPartyOnly, bakedIds),
                         EntryViolations(rest, FirstPartyOnly, bakedIds));
      }
    }
  }

  lemma {:induction false} SurfacesAppend(a: seq<Surface>, b: seq<Surface>)
    ensures SourceOciIndices(a + b) == SourceOciIndices(a) + SourceOciIndices(b)
    decreases |a|
  {
    if a == [] {
      assert a + b == b;
    } else {
      assert (a + b)[1..] == a[1..] + b;
      SurfacesAppend(a[1..], b);
    }
  }

  lemma {:induction false} NoOciSurfaces(ss: seq<Surface>)
    requires forall i :: 0 <= i < |ss| ==> !ss[i].SourceOci?
    ensures SourceOciIndices(ss) == []
    decreases |ss|
  {
    if ss == [] {
    } else {
      NoOciSurfaces(ss[1..]);
    }
  }

  lemma EntrySurfaceIndices(entry: Json, at: nat)
    ensures SourceOciIndices(EntrySurfaces(entry, at)) == if ThirdParty(entry) then [at] else []
  {
    var ss := EntrySurfaces(entry, at);
    var own: seq<Surface> := if ThirdParty(entry) then [SourceOci(at)] else [];
    var other := ss[|own|..];
    assert ss == own + other;
    SurfacesAppend(own, other);
    NoOciSurfaces(other);
    assert own != [] ==> own[1..] == [];
  }

  lemma {:induction false} RegistryHasNoOci(ms: seq<Member>)
    ensures forall i :: 0 <= i < |RegistrySurfaces(ms)| ==> !RegistrySurfaces(ms)[i].SourceOci?
    decreases |ms|
  {
    if ms == [] {
    } else {
      RegistryHasNoOci(ms[1..]);
    }
  }

  lemma {:induction false} SurfacesNameThirdParty(list: seq<Json>, at: nat)
    ensures SourceOciIndices(SurfacesFrom(list, at)) == ThirdPartyFrom(list, at)
    decreases |list|
  {
    if list == [] {
    } else {
      SurfacesNameThirdParty(list[1..], at + 1);
      SurfacesAppend(EntrySurfaces(list[0], at), SurfacesFrom(list[1..], at + 1));
      EntrySurfaceIndices(list[0], at);
    }
  }

  /** The sources that are not first-party, filtered directly. */
  function NotFirst(sources: seq<(nat, string)>): seq<(nat, string)> {
    if sources == [] then []
    else if IsFirstPartyPluginRef(sources[0].1) then NotFirst(sources[1..])
    else [sources[0]] + NotFirst(sources[1..])
  }

  lemma {:induction false} NotFirstIsSecondHalf(sources: seq<(nat, string)>)
    ensures NotFirst(sources) == SplitSources(sources).1
    decreases |sources|
  {
    if sources == [] {
    } else {
      NotFirstIsSecondHalf(sources[1..]);
    }
  }

  /** For every config the four computations name the same plugins, in the same order. */
  lemma FourComputationsAgree(cfg: Json, bakedIds: seq<string>)
    ensures var sources := OciPluginSources(cfg);
            var violations := EntryViolations(EntriesFrom(Plugins(cfg), 0), FirstPartyOnly, bakedIds);
            var surfaces := RegistrySurfaces(RegistryMembers(cfg)) + SurfacesFrom(Plugins(cfg), 0);
            && Indices(NotFirst(sources)) == ThirdPartyIndices(cfg)
            && Indices(SplitSources(sources).1) == ThirdPartyIndices(cfg)
            && NotFirstPartyIndices(violations) == ThirdPartyIndices(cfg)
            && SourceOciIndices(surfaces) == ThirdPartyIndices(cfg)
  {
    var list := Plugins(cfg);
    SplitNamesThirdParty(list, 0);
    NotFirstIsSecondHalf(OciPluginSources(cfg));
    ViolationsNameThirdParty(list, 0, bakedIds);
    SurfacesNameThirdParty(list, 0);
    var registry := RegistrySurfaces(RegistryMembers(cfg));
    SurfacesAppend(registry, SurfacesFrom(list, 0));
    RegistryHasNoOci(RegistryMembers(cfg));
    NoOciSurfaces(registry);
  }

  ghost predicate Ascending(ns: seq<nat>) {
    forall i, j :: 0 <= i < j < |ns| ==> ns[i] < ns[j]
  }

  /** `out` lists the places of `list`, counted from `at`, whose elements satisfy `p`. */
  ghost predicate ListsWhere(out: seq<nat>, list: seq<Json>, at: nat, p: Json -> bool) {
    && (forall n <- out :: at <= n < at + |list|)
    && (forall k :: 0 <= k < |list| ==> (at + k in out <==> p(list[k])))
  }

  function Where(list: seq<Json>, at: nat, p: Json -> bool): seq<nat> {
    if list == [] then []
    else if p(list[0]) then [at] + Where(list[1..], at + 1, p)
    else Where(list[1..], at + 1, p)
  }

  lemma {:induction false} ThirdPartyIsWhere(list: seq<Json>, at: nat)
    ensures ThirdPartyFrom(list, at) == Where(list, at, ThirdParty)
    decreases |list|
  {
    if list == [] {
    } else {
      ThirdPartyIsWhere(list[1..], at + 1);
    }
  }

  lemma WhereCons(list: seq<Json>, at: nat, p: Json -> bool, rest: seq<nat>)
    requires list != [] && ListsWhere(rest, list[1..], at + 1, p)
    ensures ListsWhere(if p(list[0]) then [at] + rest else rest, list, at, p)
  {
    forall k | 0 < k < |list|
      ensures at + k in rest <==> p(list[k])
    {
      assert list[1..][k - 1] == list[k];
      assert at + 1 + (k - 1) == at + k;
    }
    assert at !in rest;
  }

  lemma AscendingCons(at: nat, rest: seq<nat>)
    requires Ascending(rest) && forall n: nat :: n in rest ==> at < n
    ensures Ascending([at] + rest)
  {
    var out := [at] + rest;
    forall i, j | 0 <= i < j < |out| ensures out[i] < out[j] {
      assert out[j] == rest[j - 1] && rest[j - 1] in rest;
    }
  }

  lemma {:induction false} WhereMeaning(list: seq<Json>, at: nat, p: Json -> bool)
    ensures Ascending(Where(list, at, p)) && ListsWhere(Where(list, at, p), list, at, p)
    decreases |list|
  {
    if list == [] {
    } else {
      WhereMeaning(list[1..], at + 1, p);
      var rest := Where(list[1..], at + 1, p);
      WhereCons(list, at, p, rest);
      AscendingCons(at, rest);
    }
  }

  /** The reference list is the ascending list of the indices it should hold. */
  lemma ThirdPartyFromMeaning(list: seq<Json>, at: nat)
    ensures Ascending(ThirdPartyFrom(list, at)) && ListsWhere(ThirdPartyFrom(list, at), list, at, ThirdParty)
  {
    ThirdPartyIsWhere(list, at);
    WhereMeaning(list, at, ThirdParty);
  }
}
