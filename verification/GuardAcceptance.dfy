/** What an accepted config is, in the words of the config itself. */
module GuardAcceptance {
  import opened Text
  import opened Json
  import opened LeafChecks
  import opened PrivateBackends
  import opened UpstreamHost
  import opened PublishGuard

  /** Every string, wherever it stands, is clean. */
  ghost predicate StringsClean(cfg: Json, keys: set<string>) {
    forall steps, s :: StringAt(cfg, steps, s) ==> EnvClean(s) && SecretsClean(s, keys) && CredsClean(s) && SchemesClean(s)
  }

  /** Every `allow_private_backends: true` stands beneath a member of that name. */
  ghost predicate FlagsBeneath(cfg: Json) {
    forall steps :: SetAt(cfg, steps) ==> Beneath(steps)
  }

  /** The federation's URL has no private or local host. */
  ghost predicate UpstreamPublic(fed: Json, ip: string -> Option<bool>) {
    forall url, host :: Pointer(fed, ["upstream", "url"]) == Some(Str(url)) && GatedUpstreamHost(url) == Some(host)
      ==> !IsPrivateOrLocalHost(host, ip)
  }

  ghost predicate UpstreamsPublic(cfg: Json, ip: string -> Option<bool>) {
    forall feds, fed :: Pointer(cfg, ["mcp", "federations"]) == Some(Arr(feds)) && fed in feds ==> UpstreamPublic(fed, ip)
  }

  predicate NoLicence(cfg: Json) {
    Get(cfg, "license") == None || Get(cfg, "license") == Some(Null)
  }

  /** A delivery mode's trust floor, if it is a text, is `verified`. */
  ghost predicate FloorVerified(cfg: Json, mode: string) {
    forall s :: Pointer(cfg, ["mcp", "configurations", "events", mode, "require_trust"]) == Some(Str(s)) ==> s == "verified"
  }

  ghost predicate WebhookStrict(cfg: Json) {
    && Pointer(cfg, ["mcp", "configurations", "events", "webhook", "ttl", "allow_no_expiry"]) != Some(Bool(true))
    && (forall modes, s |
          Pointer(cfg, ["mcp", "configurations", "events", "webhook", "verification", "modes"]) == Some(Arr(modes))
          && Str(s) in modes :: s == "challenge")
    && (forall ports |
          Pointer(cfg, ["mcp", "configurations", "events", "webhook", "egress", "allowed_ports"]) == Some(Arr(ports)) ::
          ports == [Number(Int(443))])
  }

  /** No event type accepts unsigned requests. */
  ghost predicate InboundSigned(cfg: Json) {
    forall types, ty :: Pointer(cfg, ["mcp", "capabilities", "events"]) == Some(Arr(types)) && ty in types ==>
      Pointer(ty, ["source", "inbound", "allow_unsigned"]) != Some(Bool(true))
  }

  // ---------------------------------------------------------------- family by family

  lemma StringsIff(cfg: Json, keys: set<string>, ip: string -> Option<bool>)
    ensures StringsClean(cfg, keys) <==> forall k :: IsLeafKind(k) ==> !Raised(k, cfg, keys, ip)
  {
    if StringsClean(cfg, keys) {
      forall k | IsLeafKind(k) ensures !Raised(k, cfg, keys, ip) {
        forall s | HasString(cfg, s) ensures !LeafRaised(k, s, keys) {
          var steps :| StringAt(cfg, steps, s);
        }
      }
    }
    if forall k :: IsLeafKind(k) ==> !Raised(k, cfg, keys, ip) {
      assert !Raised(HostEnvInterpolation, cfg, keys, ip) && !Raised(UnregisteredSecret, cfg, keys, ip);
      assert !Raised(MalformedCredToken, cfg, keys, ip) && !Raised(HostSecretUri, cfg, keys, ip);
      forall steps, s | StringAt(cfg, steps, s)
        ensures EnvClean(s) && SecretsClean(s, keys) && CredsClean(s) && SchemesClean(s)
      {
        assert HasString(cfg, s);
        assert !LeafRaised(HostEnvInterpolation, s, keys) && !LeafRaised(UnregisteredSecret, s, keys);
        assert !LeafRaised(MalformedCredToken, s, keys) && !LeafRaised(HostSecretUri, s, keys);
      }
    }
  }

  lemma FlagsIff(cfg: Json, keys: set<string>, ip: string -> Option<bool>)
    ensures FlagsBeneath(cfg) <==> forall k: Kind :: k.PrivateBackendsEnabled? ==> !Raised(k, cfg, keys, ip)
  {
    if FlagsBeneath(cfg) {
      forall k: Kind | k.PrivateBackendsEnabled? ensures !Raised(k, cfg, keys, ip) {
        forall steps ensures !FlagAt(cfg, steps) {
          FlagAtIff(cfg, steps);
        }
      }
    }
    if forall k: Kind :: k.PrivateBackendsEnabled? ==> !Raised(k, cfg, keys, ip) {
      forall steps | SetAt(cfg, steps) ensures Beneath(steps) {
        FlagAtIff(cfg, steps);
        assert !Raised(PrivateBackendsEnabled(Render("", steps)), cfg, keys, ip);
      }
    }
  }

  lemma UpstreamIff(fed: Json, ip: string -> Option<bool>)
    ensures UpstreamPublic(fed, ip) <==> !UpstreamRaised(fed, ip)
  {
  }

  /** Some federation of the list is refused. */
  ghost predicate SomeRaised(feds: seq<Json>, ip: string -> Option<bool>) {
    exists i :: 0 <= i < |feds| && UpstreamRaised(feds[i], ip)
  }

  lemma SomeRaisedIff(feds: seq<Json>, ip: string -> Option<bool>)
    ensures SomeRaised(feds, ip) <==> exists fed <- feds :: !UpstreamPublic(fed, ip)
  {
    forall i | 0 <= i < |feds| ensures UpstreamPublic(feds[i], ip) <==> !UpstreamRaised(feds[i], ip) {
      UpstreamIff(feds[i], ip);
    }
    if fed :| fed in feds && !UpstreamPublic(fed, ip) {
      var i :| 0 <= i < |feds| && feds[i] == fed;
      assert UpstreamRaised(feds[i], ip);
    }
  }

  lemma KindsRaisedIff(cfg: Json, keys: set<string>, ip: string -> Option<bool>)
    ensures SomeRaised(Federations(cfg), ip) <==> exists k: Kind :: k.PrivateFederationUpstream? && Raised(k, cfg, keys, ip)
  {
    if i :| 0 <= i < |Federations(cfg)| && UpstreamRaised(Federations(cfg)[i], ip) {
      assert Raised(PrivateFederationUpstream(i), cfg, keys, ip);
    }
  }

  lemma UpstreamsIff(cfg: Json, keys: set<string>, ip: string -> Option<bool>)
    ensures UpstreamsPublic(cfg, ip) <==> forall k: Kind :: k.PrivateFederationUpstream? ==> !Raised(k, cfg, keys, ip)
  {
    SomeRaisedIff(Federations(cfg), ip);
    KindsRaisedIff(cfg, keys, ip);
  }

  lemma EventPaths(mode: string)
    ensures EVENTS + [mode, "require_trust"] == ["mcp", "configurations", "events", mode, "require_trust"]
    ensures WEBHOOK + ["ttl", "allow_no_expiry"] == ["mcp", "configurations", "events", "webhook", "ttl", "allow_no_expiry"]
    ensures WEBHOOK + ["verification", "modes"] == ["mcp", "configurations", "events", "webhook", "verification", "modes"]
    ensures WEBHOOK + ["egress", "allowed_ports"] == ["mcp", "configurations", "events", "webhook", "egress", "allowed_ports"]
  {
  }

  lemma FloorIff(cfg: Json, mode: string)
    ensures FloorVerified(cfg, mode) <==> !LowTrust(cfg, mode)
  {
    EventPaths(mode);
  }

  lemma WebhookIff(cfg: Json)
    ensures WebhookStrict(cfg) <==> !NoExpiry(cfg) && !BadMode(cfg) && !BadPorts(cfg)
  {
    EventPaths("");
  }

  lemma InboundIff(cfg: Json)
    ensures InboundSigned(cfg) <==> forall i :: 0 <= i < |EventTypes(cfg)| ==> !Unsigned(EventTypes(cfg)[i])
  {
    var types := EventTypes(cfg);
    if InboundSigned(cfg) {
      forall i | 0 <= i < |types| ensures !Unsigned(types[i]) {
        assert types[i] in types;
      }
    }
    if ty :| ty in types && Unsigned(ty) {
      var i :| 0 <= i < |types| && types[i] == ty;
      assert Unsigned(types[i]);
    }
  }

  ghost predicate EventsStrict(cfg: Json) {
    && FloorVerified(cfg, "webhook") && FloorVerified(cfg, "poll") && FloorVerified(cfg, "push")
    && WebhookStrict(cfg) && InboundSigned(cfg)
  }

  /** What the events kinds look at. */
  ghost predicate EventsQuiet(cfg: Json) {
    && !LowTrust(cfg, "webhook") && !LowTrust(cfg, "poll") && !LowTrust(cfg, "push")
    && !NoExpiry(cfg) && !BadMode(cfg) && !BadPorts(cfg)
    && forall i :: 0 <= i < |EventTypes(cfg)| ==> !Unsigned(EventTypes(cfg)[i])
  }

  lemma ModesAre(mode: string)
    ensures mode in MODES <==> mode == "webhook" || mode == "poll" || mode == "push"
  {
    assert MODES[0] == "webhook" && MODES[1] == "poll" && MODES[2] == "push";
  }

  lemma QuietRaisesNone(cfg: Json, keys: set<string>, ip: string -> Option<bool>, k: Kind)
    requires EventsQuiet(cfg) && IsEventsKind(k)
    ensures !Raised(k, cfg, keys, ip)
  {
    if k.EventsTrustFloor? {
      ModesAre(k.mode);
    }
  }

  lemma NoneRaisedQuiet(cfg: Json, keys: set<string>, ip: string -> Option<bool>)
    requires forall k :: IsEventsKind(k) ==> !Raised(k, cfg, keys, ip)
    ensures EventsQuiet(cfg)
  {
    ModesAre("webhook");
    ModesAre("poll");
    ModesAre("push");
    assert !Raised(EventsTrustFloor("webhook"), cfg, keys, ip) && !Raised(EventsTrustFloor("poll"), cfg, keys, ip);
    assert !Raised(EventsTrustFloor("push"), cfg, keys, ip) && !Raised(EventsNoExpiry, cfg, keys, ip);
    assert !Raised(EventsVerificationMode, cfg, keys, ip) && !Raised(EventsCallbackPorts, cfg, keys, ip);
    forall i | 0 <= i < |EventTypes(cfg)| ensures !Unsigned(EventTypes(cfg)[i]) {
      assert !Raised(EventsUnsignedInbound(i), cfg, keys, ip);
    }
  }

  lemma QuietIff(cfg: Json)
    ensures EventsStrict(cfg) <==> EventsQuiet(cfg)
  {
    FloorIff(cfg, "webhook");
    FloorIff(cfg, "poll");
    FloorIff(cfg, "push");
    WebhookIff(cfg);
    InboundIff(cfg);
  }

  lemma EventsIff(cfg: Json, keys: set<string>, ip: string -> Option<bool>)
    ensures EventsStrict(cfg) <==> forall k :: IsEventsKind(k) ==> !Raised(k, cfg, keys, ip)
  {
    QuietIff(cfg);
    if EventsQuiet(cfg) {
      forall k | IsEventsKind(k) ensures !Raised(k, cfg, keys, ip) {
        QuietRaisesNone(cfg, keys, ip, k);
      }
    }
    if forall k :: IsEventsKind(k) ==> !Raised(k, cfg, keys, ip) {
      NoneRaisedQuiet(cfg, keys, ip);
    }
  }

  /** A config is acceptable when no family of kinds is raised. */
  lemma ByFamily(cfg: Json, keys: set<string>, ip: string -> Option<bool>)
    requires forall k :: IsLeafKind(k) ==> !Raised(k, cfg, keys, ip)
    requires forall k: Kind :: k.PrivateBackendsEnabled? ==> !Raised(k, cfg, keys, ip)
    requires forall k: Kind :: k.PrivateFederationUpstream? ==> !Raised(k, cfg, keys, ip)
    requires forall k :: IsEventsKind(k) ==> !Raised(k, cfg, keys, ip)
    requires NoLicence(cfg)
    ensures Acceptable(cfg, keys, ip)
  {
    forall k ensures !Raised(k, cfg, keys, ip) {
      match k
      case LicenseBlock =>
      case UnparseableConfig =>
      case _ => assert IsLeafKind(k) || IsSsrfKind(k) || IsEventsKind(k);
    }
  }

  lemma LicenceFree(cfg: Json, keys: set<string>, ip: string -> Option<bool>)
    requires Acceptable(cfg, keys, ip)
    ensures NoLicence(cfg)
  {
    assert !Raised(LicenseBlock, cfg, keys, ip);
  }

  /** The guard accepts exactly the configs whose strings, flags, upstreams, licence and events are all in order. */
  lemma AcceptableIff(cfg: Json, keys: set<string>, ip: string -> Option<bool>)
    ensures Acceptable(cfg, keys, ip)
       <==> StringsClean(cfg, keys) && FlagsBeneath(cfg) && UpstreamsPublic(cfg, ip) && NoLicence(cfg) && EventsStrict(cfg)
  {
    StringsIff(cfg, keys, ip);
    FlagsIff(cfg, keys, ip);
    UpstreamsIff(cfg, keys, ip);
    EventsIff(cfg, keys, ip);
    if Acceptable(cfg, keys, ip) {
      LicenceFree(cfg, keys, ip);
    } else if StringsClean(cfg, keys) && FlagsBeneath(cfg) && UpstreamsPublic(cfg, ip) && NoLicence(cfg) && EventsStrict(cfg) {
      ByFamily(cfg, keys, ip);
    }
  }
}
