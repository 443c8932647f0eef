/** Which `plugins[]` entries and registry settings each check reports, index by index. */
module PluginPolicy {
  import opened Text
  import opened Json
  import opened GuardScan
  import opened PluginRefs
  import opened PluginSources

  // ---------------------------------------------------------------- an entry's source

  /** The file an entry names: its path, unless it has an OCI source. */
  function PathAt(entry: Json): Option<string> {
    if AsStr(Pointer(entry, ["source", "oci"])).Some? then None else AsStr(Pointer(entry, ["source", "path"]))
  }

  lemma PathIsPointer(entry: Json)
    ensures PathAt(entry) == match SourceOf(entry) case Some(Path(p)) => Some(p) case _ => None
  {
    SourceIsPointer(entry);
    WordsAreNoIndices();
    assert !IsDigit("path"[0]);
    var path := ["source", "path"];
    assert path[1..] == ["path"];
    var source := Child(entry, "source");
    assert source == Get(entry, "source");
    if source.Some? {
      assert Child(source.value, "path") == Get(source.value, "path");
      PointerOne(source.value, "path");
      assert Pointer(entry, path) == Child(source.value, "path");
    }
  }

  /** The path holds the plugin's id as a directory, or ends in it. */
  ghost predicate Names(path: string, id: string) {
    (exists k :: OccursAt(path, "/" + id + "/", k)) || HasSuffix(path, id)
  }

  lemma BakedIff(path: string, bakedIds: seq<string>)
    ensures Baked(path, bakedIds) <==> exists id <- bakedIds :: Names(path, id)
  {
    forall i | 0 <= i < |bakedIds|
      ensures Contains(path, "/" + bakedIds[i] + "/") || HasSuffix(path, bakedIds[i]) <==> Names(path, bakedIds[i])
    {
    }
  }

  // ---------------------------------------------------------------- violations

  /** What an entry at index `n` is refused for. */
  ghost predicate EntryRefused(v: TargetViolation, entry: Json, n: nat, policy: Policy, bakedIds: seq<string>) {
    match v
    case PluginNotFirstParty(i) => i == n && policy == FirstPartyOnly && ThirdParty(entry)
    case PluginSourceNotSupported(i) => i == n && PathAt(entry).Some? && bakedIds == []
    case PluginNotInRelease(i) =>
      && i == n && PathAt(entry).Some? && bakedIds != []
      && !exists id <- bakedIds :: Names(PathAt(entry).value, id)
  }

  lemma EntryRefusedIff(v: TargetViolation, entry: Json, n: nat, policy: Policy, bakedIds: seq<string>)
    ensures EntryRefused(v, entry, n, policy, bakedIds)
       <==> SourceOf(entry).Some? && v in EntryViolation(Entry(n, SourceOf(entry).value), policy, bakedIds)
  {
    SourceIsPointer(entry);
    PathIsPointer(entry);
    if PathAt(entry).Some? {
      BakedIff(PathAt(entry).value, bakedIds);
    }
  }

  /** Some entry of the list, counted from `at`, is refused for `v`. */
  ghost predicate ListRefused(v: TargetViolation, list: seq<Json>, at: nat, policy: Policy, bakedIds: seq<string>) {
    exists k: nat :: k < |list| && EntryRefused(v, list[k], at + k, policy, bakedIds)
  }

  lemma ListRefusedCons(v: TargetViolation, list: seq<Json>, at: nat, policy: Policy, bakedIds: seq<string>)
    requires list != []
    ensures ListRefused(v, list, at, policy, bakedIds)
       <==> EntryRefused(v, list[0], at, policy, bakedIds) || ListRefused(v, list[1..], at + 1, policy, bakedIds)
  {
    if k: nat :| k < |list| && EntryRefused(v, list[k], at + k, policy, bakedIds) {
      if k > 0 {
        assert list[1..][k - 1] == list[k] && at + 1 + (k - 1) == at + k;
      }
    }
    if k: nat :| k < |list[1..]| && EntryRefused(v, list[1..][k], at + 1 + k, policy, bakedIds) {
      assert list[k + 1] == list[1..][k] && at + (k + 1) == at + 1 + k;
    }
    if EntryRefused(v, list[0], at, policy, bakedIds) {
      assert at + 0 == at;
    }
  }

  lemma ViolationsCons(list: seq<Json>, at: nat, policy: Policy, bakedIds: seq<string>)
    requires list != []
    ensures EntryViolations(EntriesFrom(list, at), policy, bakedIds)
         == (if SourceOf(list[0]).Some? then EntryViolation(Entry(at, SourceOf(list[0]).value), policy, bakedIds) else [])
            + EntryViolations(EntriesFrom(list[1..], at + 1), policy, bakedIds)
  {
    var rest := EntriesFrom(list[1..], at + 1);
    if SourceOf(list[0]).Some? {
      var e := Entry(at, SourceOf(list[0]).value);
      assert ([e] + rest)[1..] == rest;
    } else {
      assert [] + EntryViolations(rest, policy, bakedIds) == EntryViolations(rest, policy, bakedIds);
    }
  }

  /** The plugin loop reports exactly the entries its policy and release refuse, each for its own reason. */
  lemma {:induction false} ViolationsExactly(v: TargetViolation, list: seq<Json>, at: nat, policy: Policy, bakedIds: seq<string>)
    ensures v in EntryViolations(EntriesFrom(list, at), policy, bakedIds) <==> ListRefused(v, list, at, policy, bakedIds)
    decreases |list|
  {
    if list == [] {
    } else {
      ViolationsExactly(v, list[1..], at + 1, policy, bakedIds);
      ListRefusedCons(v, list, at, policy, bakedIds);
      EntryRefusedIff(v, list[0], at, policy, bakedIds);
      ViolationsCons(list, at, policy, bakedIds);
    }
  }

  // ---------------------------------------------------------------- surfaces

  /** Present with a value: not null, `[]` or `{}`. */
  predicate Sets(v: Option<Json>) {
    v.Some? && v.value != Null && v.value != Arr([]) && v.value != Obj([])
  }

  lemma SetsIff(v: Json)
    ensures SetsSomething(v) <==> Sets(Some(v))
  {
  }

  /** What an entry at index `n` reaches beyond the platform's own plugins. */
  predicate EntryReaches(s: Surface, entry: Json, n: nat) {
    match s
    case RegistrySetting(_) => false
    case SourceOci(i) => i == n && ThirdParty(entry)
    case TrustedKeys(i) => i == n && Sets(Pointer(entry, ["signature", "trusted_keys"]))
    case SignaturePolicy(i) =>
      && i == n && Sets(Pointer(entry, ["signature", "policy"]))
      && Pointer(entry, ["signature", "policy"]) != Some(Str("enforce"))
  }

  lemma EntryReachesIff(s: Surface, entry: Json, n: nat)
    ensures s in EntrySurfaces(entry, n) <==> EntryReaches(s, entry, n)
  {
  }

  ghost predicate ListReaches(s: Surface, list: seq<Json>, at: nat) {
    exists k: nat :: k < |list| && EntryReaches(s, list[k], at + k)
  }

  lemma ListReachesCons(s: Surface, list: seq<Json>, at: nat)
    requires list != []
    ensures ListReaches(s, list, at) <==> EntryReaches(s, list[0], at) || ListReaches(s, list[1..], at + 1)
  {
    if k: nat :| k < |list| && EntryReaches(s, list[k], at + k) {
      if k > 0 {
        assert list[1..][k - 1] == list[k] && at + 1 + (k - 1) == at + k;
      }
    }
    if k: nat :| k < |list[1..]| && EntryReaches(s, list[1..][k], at + 1 + k) {
      assert list[k + 1] == list[1..][k] && at + (k + 1) == at + 1 + k;
    }
    if EntryReaches(s, list[0], at) {
      assert at + 0 == at;
    }
  }

  lemma {:induction false} EntrySurfacesExactly(s: Surface, list: seq<Json>, at: nat)
    ensures s in SurfacesFrom(list, at) <==> ListReaches(s, list, at)
    decreases |list|
  {
    if list == [] {
    } else {
      EntrySurfacesExactly(s, list[1..], at + 1);
      ListReachesCons(s, list, at);
      EntryReachesIff(s, list[0], at);
    }
  }

  /** A registry setting beyond the four that every plan may set. */
  predicate SettingReaches(s: Surface, m: Member) {
    && s == RegistrySetting(m.key) && Sets(Some(m.value))
    && m.key != "cache_dir" && m.key != "revocation_list_path"
    && m.key != "require_integrity_anchor" && m.key != "default_signature_policy"
  }

  lemma SettingIff(s: Surface, m: Member)
    ensures SettingReaches(s, m) <==> s == RegistrySetting(m.key) && m.key !in REGISTRY_KEYS_ANY_PLAN && SetsSomething(m.value)
  {
    assert REGISTRY_KEYS_ANY_PLAN[0] == "cache_dir" && REGISTRY_KEYS_ANY_PLAN[1] == "revocation_list_path";
    assert REGISTRY_KEYS_ANY_PLAN[2] == "require_integrity_anchor" && REGISTRY_KEYS_ANY_PLAN[3] == "default_signature_policy";
  }

  lemma {:induction false} RegistrySurfacesExactly(s: Surface, ms: seq<Member>)
    ensures s in RegistrySurfaces(ms) <==> exists m <- ms :: SettingReaches(s, m)
    decreases |ms|
  {
    if ms == [] {
    } else {
      RegistrySurfacesExactly(s, ms[1..]);
      SettingIff(s, ms[0]);
      assert ms == [ms[0]] + ms[1..];
    }
  }

  /** The surfaces of a config are exactly its own registry settings and entries that reach further. */
  lemma SurfacesExactly(s: Surface, cfg: Json)
    ensures s in RegistrySurfaces(RegistryMembers(cfg)) + SurfacesFrom(Plugins(cfg), 0)
       <==> (exists m <- RegistryMembers(cfg) :: SettingReaches(s, m)) || ListReaches(s, Plugins(cfg), 0)
  {
    RegistrySurfacesExactly(s, RegistryMembers(cfg));
    EntrySurfacesExactly(s, Plugins(cfg), 0);
  }
}
