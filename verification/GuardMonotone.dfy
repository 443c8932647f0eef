/** Acceptance by the publish guard survives deleting object members and registering keys. */
module GuardMonotone {
  import opened Text
  import opened Json
  import opened LeafChecks
  import opened PrivateBackends
  import opened PublishGuard

  /** `a` is `b` with some object members deleted, at any depth. */
  predicate Pruned(a: Json, b: Json)
    decreases a
  {
    match (a, b)
    case (Arr(xs), Arr(ys)) => |xs| == |ys| && forall i :: 0 <= i < |xs| ==> Pruned(xs[i], ys[i])
    case (Obj(xs), Obj(ys)) =>
      forall i :: 0 <= i < |xs| ==> exists j :: 0 <= j < |ys| && ys[j].key == xs[i].key && Pruned(xs[i].value, ys[j].value)
    case _ => a == b
  }

  // ---------------------------------------------------------------- lookups

  lemma {:induction false} LookupAt(ms: seq<Member>, j: nat)
    requires j < |ms| && forall i :: 0 <= i < j ==> ms[i].key != ms[j].key
    ensures Lookup(ms, ms[j].key) == Some(ms[j].value)
  {
    if j == 0 {
    } else {
      LookupAt(ms[1..], j - 1);
    }
  }

  lemma PrunedGet(a: Json, b: Json, key: string)
    requires Pruned(a, b) && DistinctKeys(b) && Get(a, key).Some?
    ensures Get(b, key).Some? && Pruned(Get(a, key).value, Get(b, key).value) && DistinctKeys(Get(b, key).value)
  {
    var x := Get(a, key).value;
    var i :| 0 <= i < |a.members| && a.members[i] == Member(key, x);
    var j :| 0 <= j < |b.members| && b.members[j].key == a.members[i].key && Pruned(a.members[i].value, b.members[j].value);
    LookupAt(b.members, j);
  }

  lemma PrunedChild(a: Json, b: Json, token: string)
    requires Pruned(a, b) && DistinctKeys(b) && Child(a, token).Some?
    ensures Child(b, token).Some? && Pruned(Child(a, token).value, Child(b, token).value) && DistinctKeys(Child(b, token).value)
  {
    if a.Obj? {
      PrunedGet(a, b, token);
    }
  }

  lemma {:induction false} PrunedPointer(a: Json, b: Json, path: seq<string>)
    requires Pruned(a, b) && DistinctKeys(b) && Pointer(a, path).Some?
    ensures Pointer(b, path).Some? && Pruned(Pointer(a, path).value, Pointer(b, path).value)
    ensures DistinctKeys(Pointer(b, path).value)
    decreases |path|
  {
    if path == [] {
    } else {
      PrunedChild(a, b, path[0]);
      PrunedPointer(Child(a, path[0]).value, Child(b, path[0]).value, path[1..]);
    }
  }

  /** Any scalar still found is the one that was there. */
  lemma PrunedScalar(a: Json, b: Json, path: seq<string>)
    requires Pruned(a, b) && DistinctKeys(b) && Pointer(a, path).Some?
    requires !Pointer(a, path).value.Obj? && !Pointer(a, path).value.Arr?
    ensures Pointer(b, path) == Pointer(a, path)
  {
    PrunedPointer(a, b, path);
  }

  lemma PrunedArray(a: Json, b: Json, path: seq<string>)
    requires Pruned(a, b) && DistinctKeys(b) && AsArray(Pointer(a, path)).Some?
    ensures AsArray(Pointer(b, path)).Some?
    ensures var xs, ys := AsArray(Pointer(a, path)).value, AsArray(Pointer(b, path)).value;
            |xs| == |ys| && forall i :: 0 <= i < |xs| ==> Pruned(xs[i], ys[i]) && DistinctKeys(ys[i])
  {
    PrunedPointer(a, b, path);
  }

  // ---------------------------------------------------------------- leaves and flags

  lemma {:induction false} MemberLeavesIn(ms: seq<Member>, leaf: string)
    ensures leaf in MemberLeaves(ms) <==> exists i :: 0 <= i < |ms| && leaf in Leaves(ms[i].value)
    decreases |ms|
  {
    if ms == [] {
    } else {
      MemberLeavesIn(ms[1..], leaf);
      if i :| 0 <= i < |ms| && leaf in Leaves(ms[i].value) {
        assert i > 0 ==> ms[i] == ms[1..][i - 1];
      }
      if leaf in MemberLeaves(ms[1..]) {
        var i :| 0 <= i < |ms[1..]| && leaf in Leaves(ms[1..][i].value);
        assert ms[1..][i] == ms[i + 1];
      }
    }
  }

  lemma {:induction false} ItemLeavesIn(items: seq<Json>, leaf: string)
    ensures leaf in ItemLeaves(items) <==> exists i :: 0 <= i < |items| && leaf in Leaves(items[i])
    decreases |items|
  {
    if items == [] {
    } else {
      ItemLeavesIn(items[1..], leaf);
      if i :| 0 <= i < |items| && leaf in Leaves(items[i]) {
        assert i > 0 ==> items[i] == items[1..][i - 1];
      }
      if leaf in ItemLeaves(items[1..]) {
        var i :| 0 <= i < |items[1..]| && leaf in Leaves(items[1..][i]);
        assert items[1..][i] == items[i + 1];
      }
    }
  }

  lemma {:induction false} PrunedLeaves(a: Json, b: Json, leaf: string)
    requires Pruned(a, b) && leaf in Leaves(a)
    ensures leaf in Leaves(b)
    decreases a
  {
    match a
    case Arr(xs) =>
      ItemLeavesIn(xs, leaf);
      ItemLeavesIn(b.items, leaf);
      var i :| 0 <= i < |xs| && leaf in Leaves(xs[i]);
      PrunedLeaves(xs[i], b.items[i], leaf);
    case Obj(xs) =>
      MemberLeavesIn(xs, leaf);
      MemberLeavesIn(b.members, leaf);
      var i :| 0 <= i < |xs| && leaf in Leaves(xs[i].value);
      var j :| 0 <= j < |b.members| && b.members[j].key == xs[i].key && Pruned(xs[i].value, b.members[j].value);
      PrunedLeaves(xs[i].value, b.members[j].value, leaf);
    case _ =>
  }

  lemma {:induction false} PrunedFlag(a: Json, b: Json, steps: seq<Step>)
    requires Pruned(a, b) && FlagAt(a, steps)
    ensures FlagAt(b, steps)
    decreases |steps|
  {
    match steps[0]
    case Key(k) =>
      var m: Member :| m in a.members && m.key == k && FlagIn(m, steps[1..]);
      var i :| 0 <= i < |a.members| && a.members[i] == m;
      var j :| 0 <= j < |b.members| && b.members[j].key == a.members[i].key && Pruned(a.members[i].value, b.members[j].value);
      if k != PRIVATE_BACKENDS_KEY {
        PrunedFlag(m.value, b.members[j].value, steps[1..]);
      }
      assert FlagIn(b.members[j], steps[1..]);
    case Item =>
      var item: Json :| item in a.items && FlagAt(item, steps[1..]);
      var i :| 0 <= i < |a.items| && a.items[i] == item;
      PrunedFlag(item, b.items[i], steps[1..]);
  }

  // ---------------------------------------------------------------- every kind

  lemma PrunedUpstream(a: Json, b: Json, ip: string -> Option<bool>)
    requires Pruned(a, b) && DistinctKeys(b) && UpstreamRaised(a, ip)
    ensures UpstreamRaised(b, ip)
  {
    PrunedScalar(a, b, ["upstream", "url"]);
  }

  lemma PrunedStrIn(xs: seq<Json>, ys: seq<Json>, s: string)
    requires |xs| == |ys| && (forall i :: 0 <= i < |xs| ==> Pruned(xs[i], ys[i])) && Str(s) in xs
    ensures Str(s) in ys
  {
    var i :| 0 <= i < |xs| && xs[i] == Str(s);
    assert ys[i] == Str(s);
  }

  lemma PrunedPorts(xs: seq<Json>, ys: seq<Json>)
    requires |xs| == |ys| == 1 && Pruned(xs[0], ys[0]) && ys == [Number(Int(443))]
    ensures xs == [Number(Int(443))]
  {
  }

  lemma PrunedEvents(k: Kind, a: Json, b: Json, keys: set<string>, ip: string -> Option<bool>)
    requires Pruned(a, b) && DistinctKeys(b) && IsEventsKind(k) && Raised(k, a, keys, ip)
    ensures Raised(k, b, keys, ip)
  {
    match k
    case EventsTrustFloor(mode) => PrunedScalar(a, b, EVENTS + [mode, "require_trust"]);
    case EventsNoExpiry => PrunedScalar(a, b, WEBHOOK + ["ttl", "allow_no_expiry"]);
    case EventsVerificationMode =>
      var path := WEBHOOK + ["verification", "modes"];
      var mode: string :| Str(mode) in AsArray(Pointer(a, path)).GetOr([]) && mode != "challenge";
      PrunedArray(a, b, path);
      PrunedStrIn(AsArray(Pointer(a, path)).value, AsArray(Pointer(b, path)).value, mode);
    case EventsCallbackPorts =>
      var path := WEBHOOK + ["egress", "allowed_ports"];
      PrunedArray(a, b, path);
      var xs, ys := AsArray(Pointer(a, path)).value, AsArray(Pointer(b, path)).value;
      if ys == [Number(Int(443))] {
        PrunedPorts(xs, ys);
      }
    case EventsUnsignedInbound(i) =>
      PrunedArray(a, b, ["mcp", "capabilities", "events"]);
      PrunedScalar(EventTypes(a)[i], EventTypes(b)[i], ["source", "inbound", "allow_unsigned"]);
  }

  lemma LeafRaisedMonotone(k: Kind, leaf: string, more: set<string>, keys: set<string>)
    requires keys <= more && LeafRaised(k, leaf, more)
    ensures LeafRaised(k, leaf, keys)
  {
    if k.UnregisteredSecret? && SecretsClean(leaf, keys) {
      SecretsCleanMonotone(leaf, keys, more);
    }
  }

  /** A violation that is raised after pruning and registering more keys was raised before. */
  lemma RaisedMonotone(k: Kind, a: Json, b: Json, more: set<string>, keys: set<string>, ip: string -> Option<bool>)
    requires Pruned(a, b) && DistinctKeys(b) && keys <= more && Raised(k, a, more, ip)
    ensures Raised(k, b, keys, ip)
  {
    if IsEventsKind(k) {
      PrunedEvents(k, a, b, more, ip);
    } else if IsLeafKind(k) {
      var leaf: string :| HasString(a, leaf) && LeafRaised(k, leaf, more);
      LeavesExactly(a, leaf);
      LeavesExactly(b, leaf);
      PrunedLeaves(a, b, leaf);
      LeafRaisedMonotone(k, leaf, more, keys);
    } else if k.PrivateBackendsEnabled? {
      var steps: seq<Step> :| FlagAt(a, steps) && k.path == Render("", steps);
      PrunedFlag(a, b, steps);
    } else if k.PrivateFederationUpstream? {
      PrunedArray(a, b, ["mcp", "federations"]);
      PrunedUpstream(Federations(a)[k.index], Federations(b)[k.index], ip);
    } else {
      PrunedGet(a, b, "license");
    }
  }

  /** An accepted config stays accepted. */
  lemma AcceptanceMonotone(a: Json, b: Json, more: set<string>, keys: set<string>, ip: string -> Option<bool>)
    requires Pruned(a, b) && DistinctKeys(b) && keys <= more && Acceptable(b, keys, ip)
    ensures Acceptable(a, more, ip)
  {
    forall k ensures !Raised(k, a, more, ip) {
      if Raised(k, a, more, ip) {
        RaisedMonotone(k, a, b, more, keys, ip);
      }
    }
  }
}
