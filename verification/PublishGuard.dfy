/**
 The publish guard (src/publish_guard.rs, `check_published_config_with_secret_keys`).

 `Raised` says what each kind of violation means; the methods below, which walk the config and push
 onto a list as the source does, are proved to list exactly the kinds that are raised. A config
 arrives parsed: parsing YAML or TOML is not part of this model, nor is parsing an address literal,
 which `ip` stands for.
 */
module PublishGuard {
  import opened Text
  import opened Json
  import opened GuardScan
  import opened LeafChecks
  import opened PrivateBackends
  import opened UpstreamHost

  datatype Kind =
    | HostEnvInterpolation
    | UnregisteredSecret
    | MalformedCredToken
    | HostSecretUri
    | PrivateBackendsEnabled(path: string)
    | PrivateFederationUpstream(index: nat)
    | LicenseBlock
    | EventsTrustFloor(mode: string)
    | EventsNoExpiry
    | EventsVerificationMode
    | EventsCallbackPorts
    | EventsUnsignedInbound(entry: nat)
    | UnparseableConfig

  // ---------------------------------------------------------------- what each kind means

  function ItemLeaves(items: seq<Json>): seq<string>
    decreases items
  {
    if items == [] then [] else Leaves(items[0]) + ItemLeaves(items[1..])
  }

  /** Every string value in a document; keys are not visited. */
  function Leaves(v: Json): seq<string>
    decreases v
  {
    match v
    case Str(s) => [s]
    case Arr(items) => ItemLeaves(items)
    case Obj(ms) => MemberLeaves(ms)
    case _ => []
  }

  function MemberLeaves(ms: seq<Member>): seq<string>
    decreases ms
  {
    if ms == [] then [] else Leaves(ms[0].value) + MemberLeaves(ms[1..])
  }

  /** `steps` lead from `v` to the string value `s`. */
  ghost predicate StringAt(v: Json, steps: seq<Step>, s: string)
    decreases |steps|
  {
    if steps == [] then v == Str(s)
    else match steps[0]
      case Key(k) => v.Obj? && exists m <- v.members :: m.key == k && StringAt(m.value, steps[1..], s)
      case Item => v.Arr? && exists item <- v.items :: StringAt(item, steps[1..], s)
  }

  ghost predicate HasString(v: Json, s: string) {
    exists steps :: StringAt(v, steps, s)
  }

  lemma ObjHasString(ms: seq<Member>, s: string)
    ensures HasString(Obj(ms), s) <==> exists m <- ms :: HasString(m.value, s)
  {
    if steps: seq<Step> :| StringAt(Obj(ms), steps, s) {
      var m: Member :| m in ms && m.key == steps[0].name && StringAt(m.value, steps[1..], s);
      assert HasString(m.value, s);
    }
    if m: Member :| m in ms && HasString(m.value, s) {
      var steps: seq<Step> :| StringAt(m.value, steps, s);
      var all := [Key(m.key)] + steps;
      assert all[1..] == steps;
      assert StringAt(Obj(ms), all, s);
    }
  }

  lemma ArrHasString(items: seq<Json>, s: string)
    ensures HasString(Arr(items), s) <==> exists item <- items :: HasString(item, s)
  {
    if steps: seq<Step> :| StringAt(Arr(items), steps, s) {
      var item: Json :| item in items && StringAt(item, steps[1..], s);
      assert HasString(item, s);
    }
    if item: Json :| item in items && HasString(item, s) {
      var steps: seq<Step> :| StringAt(item, steps, s);
      var all := [Item] + steps;
      assert all[1..] == steps;
      assert StringAt(Arr(items), all, s);
    }
  }

  lemma ScalarHasString(v: Json, s: string)
    requires !v.Obj? && !v.Arr?
    ensures HasString(v, s) <==> v == Str(s)
  {
    if v == Str(s) {
      assert StringAt(v, [], s);
    }
  }

  lemma {:induction false} MemberLeavesExactly(ms: seq<Member>, s: string)
    ensures s in MemberLeaves(ms) <==> exists m <- ms :: HasString(m.value, s)
    decreases ms
  {
    if ms == [] {
    } else {
      LeavesExactly(ms[0].value, s);
      MemberLeavesExactly(ms[1..], s);
      assert ms == [ms[0]] + ms[1..];
    }
  }

  /** The walk visits exactly the strings that some steps lead to. */
  lemma {:induction false} LeavesExactly(v: Json, s: string)
    ensures s in Leaves(v) <==> HasString(v, s)
    decreases v
  {
    match v
    case Obj(ms) =>
      MemberLeavesExactly(ms, s);
      ObjHasString(ms, s);
    case Arr(items) =>
      ItemLeavesExactly(items, s);
      ArrHasString(items, s);
    case _ => ScalarHasString(v, s);
  }

  lemma {:induction false} ItemLeavesExactly(items: seq<Json>, s: string)
    ensures s in ItemLeaves(items) <==> exists item <- items :: HasString(item, s)
    decreases items
  {
    if items == [] {
    } else {
      LeavesExactly(items[0], s);
      ItemLeavesExactly(items[1..], s);
      assert items == [items[0]] + items[1..];
    }
  }

  ghost predicate LeafRaised(k: Kind, leaf: string, keys: set<string>) {
    match k
    case HostEnvInterpolation => !EnvClean(leaf)
    case UnregisteredSecret => !SecretsClean(leaf, keys)
    case MalformedCredToken => !CredsClean(leaf)
    case HostSecretUri => !SchemesClean(leaf)
    case _ => false
  }

  const EVENTS: seq<string> := ["mcp", "configurations", "events"]
  const WEBHOOK: seq<string> := EVENTS + ["webhook"]
  const MODES: seq<string> := ["webhook", "poll", "push"]

  function Federations(cfg: Json): seq<Json> {
    AsArray(Pointer(cfg, ["mcp", "federations"])).GetOr([])
  }

  function EventTypes(cfg: Json): seq<Json> {
    AsArray(Pointer(cfg, ["mcp", "capabilities", "events"])).GetOr([])
  }

  ghost predicate UpstreamRaised(fed: Json, ip: string -> Option<bool>) {
    var url := AsStr(Pointer(fed, ["upstream", "url"]));
    url.Some? && GatedUpstreamHost(url.value).Some? && IsPrivateOrLocalHost(GatedUpstreamHost(url.value).value, ip)
  }

  ghost function UpstreamVerdicts(feds: seq<Json>, ip: string -> Option<bool>): seq<bool> {
    seq(|feds|, i requires 0 <= i < |feds| => UpstreamRaised(feds[i], ip))
  }

  ghost predicate Unsigned(ty: Json) {
    Pointer(ty, ["source", "inbound", "allow_unsigned"]) == Some(Bool(true))
  }

  ghost predicate LowTrust(cfg: Json, mode: string) {
    var trust := AsStr(Pointer(cfg, EVENTS + [mode, "require_trust"]));
    trust.Some? && trust.value != "verified"
  }

  ghost predicate BadMode(cfg: Json) {
    exists mode: string ::
      && Str(mode) in AsArray(Pointer(cfg, WEBHOOK + ["verification", "modes"])).GetOr([])
      && mode != "challenge"
  }

  ghost predicate BadPorts(cfg: Json) {
    var ports := AsArray(Pointer(cfg, WEBHOOK + ["egress", "allowed_ports"]));
    ports.Some? && ports.value != [Number(Int(443))]
  }

  ghost predicate NoExpiry(cfg: Json) {
    Pointer(cfg, WEBHOOK + ["ttl", "allow_no_expiry"]) == Some(Bool(true))
  }

  /** The kinds that concern the webhook block. */
  ghost predicate WebhookRaised(k: Kind, cfg: Json) {
    || (k == EventsNoExpiry && NoExpiry(cfg))
    || (k == EventsVerificationMode && BadMode(cfg))
    || (k == EventsCallbackPorts && BadPorts(cfg))
  }

  ghost predicate Raised(k: Kind, cfg: Json, keys: set<string>, ip: string -> Option<bool>) {
    match k
    case PrivateBackendsEnabled(path) => Flagged(cfg, "", path)
    case PrivateFederationUpstream(i) => i < |Federations(cfg)| && UpstreamRaised(Federations(cfg)[i], ip)
    case LicenseBlock => Get(cfg, "license").Some? && Get(cfg, "license") != Some(Null)
    case EventsTrustFloor(mode) => mode in MODES && LowTrust(cfg, mode)
    case EventsNoExpiry => NoExpiry(cfg)
    case EventsVerificationMode => BadMode(cfg)
    case EventsCallbackPorts => BadPorts(cfg)
    case EventsUnsignedInbound(i) => i < |EventTypes(cfg)| && Unsigned(EventTypes(cfg)[i])
    case UnparseableConfig => false
    case _ => exists s :: HasString(cfg, s) && LeafRaised(k, s, keys)
  }

  predicate IsLeafKind(k: Kind) {
    k.HostEnvInterpolation? || k.UnregisteredSecret? || k.MalformedCredToken? || k.HostSecretUri?
  }

  predicate IsSsrfKind(k: Kind) {
    k.PrivateBackendsEnabled? || k.PrivateFederationUpstream?
  }

  predicate IsEventsKind(k: Kind) {
    || k.EventsTrustFloor? || k.EventsNoExpiry? || k.EventsVerificationMode?
    || k.EventsCallbackPorts? || k.EventsUnsignedInbound?
  }

  /** The guard's verdict in one line: no kind of violation is raised. */
  ghost predicate Acceptable(cfg: Json, keys: set<string>, ip: string -> Option<bool>) {
    forall k :: !Raised(k, cfg, keys, ip)
  }

  /** `added` holds exactly the kinds for which `p` holds. */
  ghost predicate Lists(added: seq<Kind>, p: Kind -> bool) {
    forall k :: k in added <==> p(k)
  }

  lemma StringsRaised(k: Kind, cfg: Json, keys: set<string>, ip: string -> Option<bool>)
    ensures (exists leaf <- Leaves(cfg) :: LeafRaised(k, leaf, keys)) <==> IsLeafKind(k) && Raised(k, cfg, keys, ip)
  {
    forall s: string ensures s in Leaves(cfg) <==> HasString(cfg, s) {
      LeavesExactly(cfg, s);
    }
  }

  /** An accepted config: every string, wherever it stands, reads nothing of the host and no unregistered secret. */
  lemma AcceptedStrings(cfg: Json, keys: set<string>, ip: string -> Option<bool>, steps: seq<Step>, s: string)
    requires Acceptable(cfg, keys, ip) && StringAt(cfg, steps, s)
    ensures EnvClean(s) && SecretsClean(s, keys) && CredsClean(s) && SchemesClean(s)
  {
    assert HasString(cfg, s);
    assert !Raised(HostEnvInterpolation, cfg, keys, ip) && !Raised(UnregisteredSecret, cfg, keys, ip);
    assert !Raised(MalformedCredToken, cfg, keys, ip) && !Raised(HostSecretUri, cfg, keys, ip);
  }

  /** `{"args": ["${env.HOME}"]}` is refused for reading the host's environment. */
  lemma ListedVariableRefused(text: string, cfg: Json, keys: set<string>, ip: string -> Option<bool>)
    requires text == "${env." + "HOME}" && cfg == Obj([Member("args", Arr([Str(text)]))])
    ensures Raised(HostEnvInterpolation, cfg, keys, ip)
  {
    var steps := [Key("args"), Item];
    assert steps[1..] == [Item] && steps[1..][1..] == [];
    assert Str(text) in [Str(text)] && StringAt(Str(text), [], text);
    assert StringAt(Arr([Str(text)]), [Item], text);
    assert cfg.members[0] in cfg.members;
    assert StringAt(cfg, steps, text) && HasString(cfg, text);
    assert text[..6] == ENV_OPENER && text[6..][4] == '}';
    assert ClosedAt(text, ENV_OPENER, '}', 0);
  }

  /** A federation is refused exactly for the host its URL prints: a private address, or a local name in any case. */
  lemma UpstreamRefusedIff(fed: Json, ip: string -> Option<bool>, scheme: string, userinfo: Option<string>, h: Host,
                           port: Option<string>, tail: string)
    requires AsStr(Pointer(fed, ["upstream", "url"])) == Some(ShowUrl(scheme, userinfo, h, port, tail))
    requires IsGatedScheme(scheme) && PlainHost(h) && (tail == [] || IsDelimiter(tail[0]))
    requires userinfo.Some? ==> Lacks(userinfo.value, "/?#")
    requires port.Some? ==> Lacks(port.value, "/?#@:]")
    ensures UpstreamRaised(fed, ip)
       <==> if ip(h.text).Some? then ip(h.text).value else LocalName(AsciiLower(h.text))
  {
    HostRoundTrip(scheme, userinfo, h, port, tail);
    if ip(h.text).None? {
      LocalIff(h.text, ip);
    }
  }

  // ---------------------------------------------------------------- the checks

  method CheckUpstream(fed: Json, ip: string -> Option<bool>) returns (raised: bool)
    ensures raised == UpstreamRaised(fed, ip)
  {
    var url := AsStr(Pointer(fed, ["upstream", "url"]));
    if url.None? {
      return false;
    }
    var host := GatedUpstreamHost(url.value);
    raised := host.Some? && IsPrivateOrLocalHost(host.value, ip);
  }

  method CheckUpstreamAt(feds: seq<Json>, i: nat, ip: string -> Option<bool>, ghost want: seq<bool>) returns (raised: bool)
    requires i < |feds| && want == UpstreamVerdicts(feds, ip)
    ensures raised == want[i]
  {
    raised := CheckUpstream(feds[i], ip);
  }

  method UpstreamHits(feds: seq<Json>, ip: string -> Option<bool>) returns (hits: seq<bool>)
    ensures hits == UpstreamVerdicts(feds, ip)
  {
    ghost var want := UpstreamVerdicts(feds, ip);
    hits := [];
    for i := 0 to |feds|
      invariant hits == want[..i]
    {
      var raised := CheckUpstreamAt(feds, i, ip, want);
      hits := hits + [raised];
    }
  }

  ghost predicate SchemeFoundBefore(value: string, n: nat)
    requires n <= |HOST_SECRET_SCHEMES|
  {
    exists m, i: nat :: 0 <= m < n && BoundaryMatch(value, HOST_SECRET_SCHEMES[m], i)
  }

  lemma AllAdmittedSnoc(snippets: seq<string>, i: nat, keys: set<string>)
    requires i < |snippets|
    ensures AllAdmitted(snippets[..i + 1], keys)
       <==> AllAdmitted(snippets[..i], keys) && Admitted(NameOf(snippets[i]), keys)
  {
    assert snippets[..i + 1] == snippets[..i] + [snippets[i]];
  }

  ghost predicate AllWellFormed(inners: seq<string>) {
    forall inner <- inners :: WellFormedCred(inner)
  }

  lemma AllWellFormedSnoc(inners: seq<string>, i: nat)
    requires i < |inners|
    ensures AllWellFormed(inners[..i + 1]) <==> AllWellFormed(inners[..i]) && WellFormedCred(inners[i])
  {
    assert inners[..i + 1] == inners[..i] + [inners[i]];
  }

  lemma SchemesDisjoint()
    ensures forall n :: 0 <= n < |HOST_SECRET_SCHEMES| ==> SelfDisjoint(HOST_SECRET_SCHEMES[n])
  {
    forall n | 0 <= n < |HOST_SECRET_SCHEMES|
      ensures SelfDisjoint(HOST_SECRET_SCHEMES[n])
    {
      var pat := HOST_SECRET_SCHEMES[n];
      forall k | 0 < k < |pat| ensures pat[k..] != pat[..|pat| - k] {
        assert pat[k..][|pat| - k - 1] == '/';
        assert pat[..|pat| - k][0] == pat[0] && pat[0] != '/';
        assert pat[k..][0] == pat[k] != pat[0];
      }
    }
  }

  lemma {:induction false} ItemLeavesSnoc(items: seq<Json>, i: nat)
    requires i < |items|
    ensures ItemLeaves(items[..i + 1]) == ItemLeaves(items[..i]) + Leaves(items[i])
    decreases i
  {
    if i == 0 {
      assert items[..1] == [items[0]];
    } else {
      ItemLeavesSnoc(items[1..], i - 1);
      assert items[..i + 1][1..] == items[1..][..i] && items[..i][1..] == items[1..][..i - 1];
    }
  }

  lemma {:induction false} MemberLeavesSnoc(ms: seq<Member>, i: nat)
    requires i < |ms|
    ensures MemberLeaves(ms[..i + 1]) == MemberLeaves(ms[..i]) + Leaves(ms[i].value)
    decreases i
  {
    if i == 0 {
      assert ms[..1] == [ms[0]];
    } else {
      MemberLeavesSnoc(ms[1..], i - 1);
      assert ms[..i + 1][1..] == ms[1..][..i] && ms[..i][1..] == ms[1..][..i - 1];
    }
  }

  ghost predicate Below(cfg: Json, q: seq<string>) {
    Pointer(cfg, WEBHOOK + q)
    == if Pointer(cfg, WEBHOOK).None? then None else Pointer(Pointer(cfg, WEBHOOK).value, q)
  }

  /** Reading below the webhook block is reading below the document. */
  lemma WebhookPointers(cfg: Json)
    ensures Below(cfg, ["ttl", "allow_no_expiry"])
    ensures Below(cfg, ["verification", "modes"])
    ensures Below(cfg, ["egress", "allowed_ports"])
  {
    PointerAppend(cfg, WEBHOOK, ["ttl", "allow_no_expiry"]);
    PointerAppend(cfg, WEBHOOK, ["verification", "modes"]);
    PointerAppend(cfg, WEBHOOK, ["egress", "allowed_ports"]);
  }

  class Guard {
    const keys: set<string>
    const ip: string -> Option<bool>
    var violations: seq<Kind>

    constructor (keys: set<string>, ip: string -> Option<bool>)
      ensures this.keys == keys && this.ip == ip && violations == []
    {
      this.keys, this.ip, violations := keys, ip, [];
    }

    method CheckLeafValue(value: string)
      modifies this`violations
      ensures forall k :: k in violations <==> k in old(violations) || LeafRaised(k, value, keys)
    {
      var env := TokensFrom(value, ENV_OPENER, '}');
      NoTokensIff(value, ENV_OPENER, '}');
      for i := 0 to |env|
        invariant forall k :: k in violations <==> k in old(violations) || (k == HostEnvInterpolation && i > 0)
      {
        violations := violations + [HostEnvInterpolation];
      }
      assert (|env| > 0) == !EnvClean(value);
      label Env:
      CheckSecrets(value);
      label Secrets:
      CheckCreds(value);
      label Creds:
      CheckSchemes(value);
    }

    method CheckSecrets(value: string)
      modifies this`violations
      ensures forall k :: k in violations <==>
        k in old(violations) || (k == UnregisteredSecret && !SecretsClean(value, keys))
    {
      var snippets := TokensFrom(value, SECRET_OPENER, '}');
      SecretScanExact(value, keys);
      RefuseUnadmitted(snippets);
    }

    method RefuseUnadmitted(snippets: seq<string>)
      modifies this`violations
      ensures forall k :: k in violations <==>
        k in old(violations) || (k == UnregisteredSecret && !AllAdmitted(snippets, keys))
    {
      for i := 0 to |snippets|
        invariant forall k :: k in violations <==>
          k in old(violations) || (k == UnregisteredSecret && !AllAdmitted(snippets[..i], keys))
      {
        var name := NameOf(snippets[i]);
        AllAdmittedSnoc(snippets, i, keys);
        if IsSecretKey(name) && name in keys {
          continue;
        }
        violations := violations + [UnregisteredSecret];
      }
      assert snippets[..|snippets|] == snippets;
    }

    method CheckCreds(value: string)
      modifies this`violations
      ensures forall k :: k in violations <==>
        k in old(violations) || (k == MalformedCredToken && !CredsClean(value))
    {
      var inners := CredTokenInners(value);
      RefuseMalformed(inners);
    }

    method RefuseMalformed(inners: seq<string>)
      modifies this`violations
      ensures forall k :: k in violations <==>
        k in old(violations) || (k == MalformedCredToken && !AllWellFormed(inners))
    {
      for i := 0 to |inners|
        invariant forall k :: k in violations <==>
          k in old(violations) || (k == MalformedCredToken && !AllWellFormed(inners[..i]))
      {
        AllWellFormedSnoc(inners, i);
        if !WellFormedCred(inners[i]) {
          violations := violations + [MalformedCredToken];
        }
      }
      assert inners[..|inners|] == inners;
    }

    method CheckSchemes(value: string)
      modifies this`violations
      ensures forall k :: k in violations <==>
        k in old(violations) || (k == HostSecretUri && !SchemesClean(value))
    {
      SchemesDisjoint();
      for n := 0 to |HOST_SECRET_SCHEMES|
        invariant forall k :: k in violations <==>
          k in old(violations) || (k == HostSecretUri && SchemeFoundBefore(value, n))
      {
        label Round:
        var at := SchemeBoundaryMatches(value, HOST_SECRET_SCHEMES[n]);
        for i := 0 to |at|
          invariant forall k :: k in violations <==> k in old@Round(violations) || (k == HostSecretUri && i > 0)
        {
          violations := violations + [HostSecretUri];
        }
        assert (exists i: nat :: BoundaryMatch(value, HOST_SECRET_SCHEMES[n], i)) <==> |at| > 0 by {
          if |at| > 0 {
            assert at[0] in at;
          }
        }
      }
    }

    method WalkLeafStrings(v: Json)
      modifies this`violations
      ensures forall k :: k in violations <==>
        k in old(violations) || exists leaf <- Leaves(v) :: LeafRaised(k, leaf, keys)
      decreases v
    {
      match v
      case Str(s) =>
        CheckLeafValue(s);
        assert Leaves(v) == [s];
      case Arr(items) =>
        for i := 0 to |items|
          invariant forall k :: k in violations <==>
            k in old(violations) || exists leaf <- ItemLeaves(items[..i]) :: LeafRaised(k, leaf, keys)
        {
          WalkLeafStrings(items[i]);
          ItemLeavesSnoc(items, i);
        }
        assert items[..|items|] == items;
      case Obj(ms) =>
        for i := 0 to |ms|
          invariant forall k :: k in violations <==>
            k in old(violations) || exists leaf <- MemberLeaves(ms[..i]) :: LeafRaised(k, leaf, keys)
        {
          WalkLeafStrings(ms[i].value);
          MemberLeavesSnoc(ms, i);
        }
        assert ms[..|ms|] == ms;
      case _ =>
    }

    method CheckStrings(cfg: Json)
      modifies this`violations
      ensures forall k :: k in violations <==> k in old(violations) || (IsLeafKind(k) && Raised(k, cfg, keys, ip))
    {
      WalkLeafStrings(cfg);
      forall k ensures (exists leaf <- Leaves(cfg) :: LeafRaised(k, leaf, keys)) <==> IsLeafKind(k) && Raised(k, cfg, keys, ip) {
        StringsRaised(k, cfg, keys, ip);
      }
    }

    method CheckSsrf(cfg: Json)
      modifies this`violations
      ensures forall k :: k in violations <==>
        k in old(violations) || (IsSsrfKind(k) && Raised(k, cfg, keys, ip))
    {
      CheckPrivateBackends(cfg);
      CheckUpstreams(Federations(cfg));
    }

    method CheckPrivateBackends(cfg: Json)
      modifies this`violations
      ensures forall k :: k in violations <==>
        k in old(violations) || (k.PrivateBackendsEnabled? && Flagged(cfg, "", k.path))
    {
      var walk := new Walk();
      walk.Collect(cfg);
      var seen := walk.out;
      WalkRefinesPathSet(cfg);
      for i := 0 to |seen|
        invariant forall k :: k in violations <==>
          k in old(violations) || (k.PrivateBackendsEnabled? && k.path in seen[..i])
      {
        assert seen[..i + 1] == seen[..i] + [seen[i]];
        violations := violations + [PrivateBackendsEnabled(seen[i])];
      }
      assert seen[..|seen|] == seen;
    }

    method CheckUpstreams(feds: seq<Json>)
      modifies this`violations
      ensures forall k :: k in violations <==>
        || k in old(violations)
        || (k.PrivateFederationUpstream? && k.index < |feds| && UpstreamRaised(feds[k.index], ip))
    {
      var hits := UpstreamHits(feds, ip);
      PushUpstreams(hits);
    }

    method PushUpstreams(hits: seq<bool>)
      modifies this`violations
      ensures forall k :: k in violations <==>
        k in old(violations) || (k.PrivateFederationUpstream? && k.index < |hits| && hits[k.index])
    {
      for i := 0 to |hits|
        invariant forall k :: k in violations <==>
          k in old(violations) || (k.PrivateFederationUpstream? && k.index < i && hits[k.index])
      {
        if hits[i] {
          violations := violations + [PrivateFederationUpstream(i)];
        }
      }
    }

    method CheckLicenseBlock(cfg: Json)
      modifies this`violations
      ensures forall k :: k in violations <==>
        k in old(violations) || (k == LicenseBlock && Raised(k, cfg, keys, ip))
    {
      var license := Get(cfg, "license");
      if license.Some? && !license.value.Null? {
        violations := violations + [LicenseBlock];
      }
    }

    method CheckEvents(cfg: Json)
      modifies this`violations
      ensures forall k :: k in violations <==>
        k in old(violations) || (IsEventsKind(k) && Raised(k, cfg, keys, ip))
    {
      CheckTrustFloors(cfg);
      CheckWebhookOf(cfg);
      CheckInbound(EventTypes(cfg));
    }

    method CheckWebhookOf(cfg: Json)
      modifies this`violations
      ensures forall k :: k in violations <==> k in old(violations) || WebhookRaised(k, cfg)
    {
      var webhook := Pointer(cfg, WEBHOOK);
      WebhookPointers(cfg);
      if webhook.Some? {
        CheckWebhook(cfg, webhook.value);
      }
    }

    method CheckTrustFloors(cfg: Json)
      modifies this`violations
      ensures forall k :: k in violations <==>
        k in old(violations) || (k.EventsTrustFloor? && k.mode in MODES && LowTrust(cfg, k.mode))
    {
      for n := 0 to |MODES|
        invariant forall k :: k in violations <==>
          k in old(violations) || (k.EventsTrustFloor? && k.mode in MODES[..n] && LowTrust(cfg, k.mode))
      {
        assert MODES[..n + 1] == MODES[..n] + [MODES[n]];
        var trust := AsStr(Pointer(cfg, EVENTS + [MODES[n], "require_trust"]));
        if trust.Some? && trust.value != "verified" {
          violations := violations + [EventsTrustFloor(MODES[n])];
        }
      }
      assert MODES[..|MODES|] == MODES;
    }

    method CheckInbound(types: seq<Json>)
      modifies this`violations
      ensures forall k :: k in violations <==>
        k in old(violations) || (k.EventsUnsignedInbound? && k.entry < |types| && Unsigned(types[k.entry]))
    {
      for i := 0 to |types|
        invariant forall k :: k in violations <==>
          k in old(violations) || (k.EventsUnsignedInbound? && k.entry < i && Unsigned(types[k.entry]))
      {
        if Pointer(types[i], ["source", "inbound", "allow_unsigned"]) == Some(Bool(true)) {
          violations := violations + [EventsUnsignedInbound(i)];
        }
      }
    }

    method CheckWebhook(cfg: Json, webhook: Json)
      requires Pointer(cfg, WEBHOOK) == Some(webhook)
      modifies this`violations
      ensures forall k :: k in violations <==> k in old(violations) || WebhookRaised(k, cfg)
    {
      WebhookPointers(cfg);
      if Pointer(webhook, ["ttl", "allow_no_expiry"]) == Some(Bool(true)) {
        violations := violations + [EventsNoExpiry];
      }
      var modes := AsArray(Pointer(webhook, ["verification", "modes"])).GetOr([]);
      var bad := AnyOtherMode(modes);
      violations := violations + bad;
      var ports := AsArray(Pointer(webhook, ["egress", "allowed_ports"]));
      if ports.Some? && ports.value != [Number(Int(443))] {
        violations := violations + [EventsCallbackPorts];
      }
    }

    /** One violation for every verification mode other than the challenge. */
    method AnyOtherMode(modes: seq<Json>) returns (bad: seq<Kind>)
      ensures forall k :: k in bad <==>
        k == EventsVerificationMode && exists mode: string :: Str(mode) in modes && mode != "challenge"
    {
      bad := [];
      for i := 0 to |modes|
        invariant forall k :: k in bad <==>
          k == EventsVerificationMode && exists mode: string :: Str(mode) in modes[..i] && mode != "challenge"
      {
        assert modes[..i + 1] == modes[..i] + [modes[i]];
        if modes[i].Str? && modes[i].s != "challenge" {
          bad := bad + [EventsVerificationMode];
        }
      }
      assert modes[..|modes|] == modes;
    }

    /** The whole guard on a parsed config, or on text that does not parse. */
    method Check(parsed: Option<Json>) returns (ok: bool)
      requires violations == []
      modifies this`violations
      ensures parsed.None? ==> !ok && violations == [UnparseableConfig]
      ensures parsed.Some? ==> Lists(violations, k => Raised(k, parsed.value, keys, ip))
      ensures parsed.Some? ==> (ok <==> Acceptable(parsed.value, keys, ip))
    {
      if parsed.None? {
        violations := [UnparseableConfig];
        return false;
      }
      var cfg := parsed.value;
      CheckStrings(cfg);
      CheckSsrf(cfg);
      CheckLicenseBlock(cfg);
      CheckEvents(cfg);
      ok := violations == [];
      assert !ok ==> violations[0] in violations;
    }
  }
}
