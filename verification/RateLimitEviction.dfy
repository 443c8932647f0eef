/** When the bulk eviction of idle buckets can be observed through the limiter's verdicts. */
module RateLimitEviction {
  import opened RateLimit
  import opened Text

  /** The reference: one bucket that is never evicted, fed one client's own requests. */
  function Alone(cfg: Config, b: Option<Bucket>, times: seq<nat>): (vs: seq<bool>)
    ensures |vs| == |times|
    decreases |times|
  {
    if times == [] then [] else
    if !cfg.Enabled() then [true] + Alone(cfg, b, times[1..]) else
    var (b', ok) := Take(cfg, b, times[0]);
    [ok] + Alone(cfg, Some(b'), times[1..])
  }

  /** No client, in any run with nondecreasing instants, can tell that buckets are evicted. */
  ghost predicate EvictionInvisible(cfg: Config) {
    forall qs, ip | Nondecreasing(qs) ::
      Own(qs, Verdicts(cfg, map[], qs), ip) == Alone(cfg, None, OwnTimes(qs, ip))
  }

  /** What `ip`'s slot in the table and its private reference bucket have in common at time `t`. */
  ghost predicate Related(cfg: Config, m: Buckets, b: Option<Bucket>, ip: IpAddr, t: nat) {
    if ip in m then b == Some(m[ip]) && m[ip].last <= t
    else b.Some? ==> b.value.last <= t && b.value.tokens + (t - b.value.last) * cfg.perMin >= cfg.Capacity()
  }

  lemma SweepRelated(cfg: Config, m: Buckets, b: Option<Bucket>, ip: IpAddr, t: nat, now: nat)
    requires cfg.Tokens() <= 10 * cfg.perMin
    requires Related(cfg, m, b, ip, t) && t <= now
    ensures Related(cfg, Swept(m, now), b, ip, now)
  {
    if b.Some? {
      if ip in m {
        if now - m[ip].last >= IDLE_EVICT {
          MulMono(IDLE_EVICT, now - m[ip].last, cfg.perMin);
        }
      } else {
        MulMono(t - b.value.last, now - b.value.last, cfg.perMin);
      }
    }
  }

  lemma TakeRelated(cfg: Config, m: Buckets, b: Option<Bucket>, ip: IpAddr, now: nat)
    requires Related(cfg, m, b, ip, now)
    ensures Take(cfg, Lookup(m, ip), now) == Take(cfg, b, now)
  {
  }

  lemma AloneCons(cfg: Config, b: Option<Bucket>, now: nat, ts: seq<nat>)
    ensures Alone(cfg, b, [now] + ts)
         == if cfg.Enabled() then [Take(cfg, b, now).1] + Alone(cfg, Some(Take(cfg, b, now).0), ts)
            else [true] + Alone(cfg, b, ts)
  {
    assert ([now] + ts)[1..] == ts;
  }

  lemma {:induction false} Simulate(cfg: Config, m: Buckets, b: Option<Bucket>, qs: seq<Request>, ip: IpAddr, t: nat)
    requires cfg.Enabled() && cfg.Tokens() <= 10 * cfg.perMin
    requires Nondecreasing(qs) && (qs != [] ==> t <= qs[0].now)
    requires Related(cfg, m, b, ip, t)
    ensures Own(qs, Verdicts(cfg, m, qs), ip) == Alone(cfg, b, OwnTimes(qs, ip))
    decreases |qs|
  {
    if qs == [] {
    } else {
      var q := qs[0];
      var m' := Step(cfg, m, q).0;
      VerdictsCons(cfg, m, qs);
      SweepRelated(cfg, m, b, ip, t, q.now);
      StepSlot(cfg, m, q, ip);
      if q.ip == ip {
        TakeRelated(cfg, Swept(m, q.now), b, ip, q.now);
        Simulate(cfg, m', Some(Take(cfg, b, q.now).0), qs[1..], ip, q.now);
        AloneCons(cfg, b, q.now, OwnTimes(qs[1..], ip));
      } else {
        Simulate(cfg, m', b, qs[1..], ip, q.now);
      }
    }
  }

  lemma {:induction false} DisabledAllows(cfg: Config, m: Buckets, qs: seq<Request>, ip: IpAddr)
    requires !cfg.Enabled()
    ensures Own(qs, Verdicts(cfg, m, qs), ip) == Alone(cfg, None, OwnTimes(qs, ip))
  {
    if qs == [] {
    } else {
      VerdictsCons(cfg, m, qs);
      DisabledAllows(cfg, m, qs[1..], ip);
      AloneCons(cfg, None, qs[0].now, OwnTimes(qs[1..], ip));
    }
  }

  // ---------------------------------------------------------------- the run that exposes an eviction

  function Same(ip: IpAddr, now: nat, n: nat): (qs: seq<Request>)
    ensures |qs| == n && forall i :: 0 <= i < n ==> qs[i] == Request(ip, now)
  {
    seq(n, _ => Request(ip, now))
  }

  function Times(now: nat, n: nat): (ts: seq<nat>)
    ensures |ts| == n && forall i :: 0 <= i < n ==> ts[i] == now
  {
    seq(n, _ => now)
  }

  function Yes(n: nat): (vs: seq<bool>)
    ensures |vs| == n && forall i :: 0 <= i < n ==> vs[i]
  {
    seq(n, _ => true)
  }

  /** One request each from `n` distinct addresses. */
  function Spray(from: nat, n: nat): (qs: seq<Request>)
    requires from + n <= MAX_TRACKED_IPS
    ensures |qs| == n && forall i :: 0 <= i < n ==> qs[i] == Request(V6(from + i), 0)
  {
    seq(n, i requires 0 <= i < n => Request(V6(from + i), 0))
  }

  const VICTIM: IpAddr := V4(0)

  /** Drain the burst, fill the table, and come back exactly `IDLE_EVICT` later. */
  function ExposingRun(cfg: Config): seq<Request> {
    Same(VICTIM, 0, cfg.Tokens()) + (Spray(0, MAX_TRACKED_IPS) + Same(VICTIM, IDLE_EVICT, cfg.Tokens()))
  }

  lemma TakeWhole(cfg: Config, k: nat, now: nat)
    requires 0 < k <= cfg.Tokens()
    ensures Take(cfg, Some(Bucket(k * UNIT, now)), now) == (Bucket((k - 1) * UNIT, now), true)
  {
  }

  lemma TakeDry(cfg: Config, now: nat)
    ensures Take(cfg, Some(Bucket(0, now)), now) == (Bucket(0, now), false)
  {
  }

  lemma AloneTimes(cfg: Config, b: Option<Bucket>, now: nat, n: nat)
    requires cfg.Enabled() && n > 0
    ensures Alone(cfg, b, Times(now, n))[n - 1]
         == if n == 1 then Take(cfg, b, now).1
            else Alone(cfg, Some(Take(cfg, b, now).0), Times(now, n - 1))[n - 2]
  {
    assert Times(now, n) == [now] + Times(now, n - 1);
    AloneCons(cfg, b, now, Times(now, n - 1));
  }

  /** A bucket of `k` tokens refuses the last of more than `k` simultaneous requests. */
  lemma {:induction false} AloneRunsDry(cfg: Config, k: nat, now: nat, n: nat)
    requires cfg.Enabled() && k <= cfg.Tokens() && k < n
    ensures !Alone(cfg, Some(Bucket(k * UNIT, now)), Times(now, n))[n - 1]
  {
    var b := Some(Bucket(k * UNIT, now));
    AloneTimes(cfg, b, now, n);
    if k > 0 {
      TakeWhole(cfg, k, now);
      AloneRunsDry(cfg, k - 1, now, n - 1);
    } else if n > 1 {
      TakeDry(cfg, now);
      AloneRunsDry(cfg, 0, now, n - 1);
    }
  }

  lemma {:induction false} AloneAfterBurst(cfg: Config, k: nat, now: nat, ts: seq<nat>)
    requires cfg.Enabled() && k <= cfg.Tokens()
    ensures Alone(cfg, Some(Bucket(k * UNIT, now)), Times(now, k) + ts)
         == Yes(k) + Alone(cfg, Some(Bucket(0, now)), ts)
  {
    if k == 0 {
      assert Times(now, k) + ts == ts;
    } else {
      var rest := Times(now, k - 1) + ts;
      assert Times(now, k) + ts == [now] + rest;
      AloneCons(cfg, Some(Bucket(k * UNIT, now)), now, rest);
      TakeWhole(cfg, k, now);
      AloneAfterBurst(cfg, k - 1, now, ts);
    }
  }

  /** The never-evicted bucket refuses the last request of the second burst. */
  lemma AloneRefuses(cfg: Config)
    requires cfg.Enabled() && cfg.Tokens() > 10 * cfg.perMin
    ensures var n := cfg.Tokens();
            var vs := Alone(cfg, None, Times(0, n) + Times(IDLE_EVICT, n));
            |vs| == 2 * n && !vs[2 * n - 1]
  {
    var n := cfg.Tokens();
    var ts := Times(0, n) + Times(IDLE_EVICT, n);
    assert Take(cfg, None, 0) == Take(cfg, Some(Bucket(n * UNIT, 0)), 0);
    assert Alone(cfg, None, ts) == Alone(cfg, Some(Bucket(n * UNIT, 0)), ts);
    AloneAfterBurst(cfg, n, 0, Times(IDLE_EVICT, n));
    var k := 10 * cfg.perMin;
    var late := Times(IDLE_EVICT, n);
    assert IDLE_EVICT * cfg.perMin == k * UNIT;
    assert Take(cfg, Some(Bucket(0, 0)), IDLE_EVICT) == Take(cfg, Some(Bucket(k * UNIT, IDLE_EVICT)), IDLE_EVICT);
    assert Alone(cfg, Some(Bucket(0, 0)), late) == Alone(cfg, Some(Bucket(k * UNIT, IDLE_EVICT)), late);
    AloneRunsDry(cfg, k, IDLE_EVICT, n);
  }

  lemma BurstStep(cfg: Config, m: Buckets, k: nat, ip: IpAddr, now: nat)
    requires cfg.Enabled() && 0 < k <= cfg.Tokens() && |m| <= MAX_TRACKED_IPS
    requires ip in m && m[ip] == Bucket(k * UNIT, now)
    ensures Step(cfg, m, Request(ip, now)) == (m[ip := Bucket((k - 1) * UNIT, now)], true)
    ensures |m[ip := Bucket((k - 1) * UNIT, now)]| == |m|
  {
    TakeWhole(cfg, k, now);
    var m' := m[ip := Bucket((k - 1) * UNIT, now)];
    assert m'.Keys == m.Keys;
    assert |m'| == |m'.Keys| == |m.Keys| == |m|;
  }

  lemma {:induction false} BurstRun(cfg: Config, m: Buckets, k: nat, ip: IpAddr, now: nat)
    requires cfg.Enabled() && k <= cfg.Tokens() && |m| <= MAX_TRACKED_IPS
    requires ip in m && m[ip] == Bucket(k * UNIT, now)
    ensures Verdicts(cfg, m, Same(ip, now, k)) == Yes(k)
    ensures StateAfter(cfg, m, Same(ip, now, k)) == m[ip := Bucket(0, now)]
    decreases k
  {
    if k > 0 {
      var qs := Same(ip, now, k);
      assert qs[1..] == Same(ip, now, k - 1);
      BurstStep(cfg, m, k, ip, now);
      VerdictsCons(cfg, m, qs);
      BurstRun(cfg, m[ip := Bucket((k - 1) * UNIT, now)], k - 1, ip, now);
    } else {
      assert m == m[ip := Bucket(0, now)];
    }
  }

  lemma OneMore(m: Buckets, ip: IpAddr, b: Bucket)
    ensures |m[ip := b]| <= |m| + 1
  {
    assert m[ip := b].Keys == m.Keys + {ip};
    assert |m[ip := b]| == |m[ip := b].Keys| <= |m.Keys| + 1 == |m| + 1;
  }

  lemma FreshTake(cfg: Config, m: Buckets, ip: IpAddr, now: nat)
    requires cfg.Enabled() && ip !in Swept(m, now)
    ensures Step(cfg, m, Request(ip, now)) == (Swept(m, now)[ip := Bucket((cfg.Tokens() - 1) * UNIT, now)], true)
  {
  }

  /** A client with no bucket spends exactly its capacity and leaves an empty bucket. */
  lemma FreshBurst(cfg: Config, m: Buckets, ip: IpAddr, now: nat)
    requires cfg.Enabled() && ip !in Swept(m, now) && |Swept(m, now)| < MAX_TRACKED_IPS
    ensures Verdicts(cfg, m, Same(ip, now, cfg.Tokens())) == Yes(cfg.Tokens())
    ensures StateAfter(cfg, m, Same(ip, now, cfg.Tokens())) == Swept(m, now)[ip := Bucket(0, now)]
  {
    var n := cfg.Tokens();
    var qs := Same(ip, now, n);
    var kept := Swept(m, now);
    var m' := kept[ip := Bucket((n - 1) * UNIT, now)];
    FreshTake(cfg, m, ip, now);
    VerdictsCons(cfg, m, qs);
    assert qs[1..] == Same(ip, now, n - 1);
    OneMore(kept, ip, m'[ip]);
    BurstRun(cfg, m', n - 1, ip, now);
    assert m'[ip := Bucket(0, now)] == kept[ip := Bucket(0, now)];
  }

  ghost predicate SprayedTo(m: Buckets, i: nat) {
    && |m| == i + 1
    && VICTIM in m && m[VICTIM] == Bucket(0, 0)
    && (forall ip :: ip in m ==> m[ip].last == 0)
    && (forall j: U128 :: j >= i ==> V6(j) !in m)
  }

  lemma {:induction false} SprayFills(cfg: Config, m: Buckets, i: nat, n: nat)
    requires cfg.Enabled() && i + n <= MAX_TRACKED_IPS && SprayedTo(m, i)
    ensures SprayedTo(StateAfter(cfg, m, Spray(i, n)), i + n)
    decreases n
  {
    if n == 0 {
    } else {
      var qs := Spray(i, n);
      assert qs[1..] == Spray(i + 1, n - 1);
      assert Swept(m, 0) == m;
      var m' := Step(cfg, m, qs[0]).0;
      assert m'.Keys == m.Keys + {V6(i)};
      assert |m'| == |m'.Keys| == |m.Keys| + 1 == |m| + 1;
      SprayFills(cfg, m', i + 1, n - 1);
    }
  }

  lemma {:induction false} OwnOnly(qs: seq<Request>, vs: seq<bool>, ip: IpAddr)
    requires |qs| == |vs| && forall i :: 0 <= i < |qs| ==> qs[i].ip == ip
    ensures Own(qs, vs, ip) == vs
    ensures |OwnTimes(qs, ip)| == |qs|
    ensures forall i :: 0 <= i < |qs| ==> OwnTimes(qs, ip)[i] == qs[i].now
  {
    if qs == [] {
    } else {
      OwnOnly(qs[1..], vs[1..], ip);
    }
  }

  lemma {:induction false} OwnNone(qs: seq<Request>, vs: seq<bool>, ip: IpAddr)
    requires |qs| == |vs| && forall i :: 0 <= i < |qs| ==> qs[i].ip != ip
    ensures Own(qs, vs, ip) == [] && OwnTimes(qs, ip) == []
  {
    if qs == [] {
    } else {
      OwnNone(qs[1..], vs[1..], ip);
    }
  }

  /** The three stages of the exposing run: what each leaves behind and answers. */
  lemma ExposingStages(cfg: Config)
    requires cfg.Enabled()
    ensures var n := cfg.Tokens();
            var a, b, c := Same(VICTIM, 0, n), Spray(0, MAX_TRACKED_IPS), Same(VICTIM, IDLE_EVICT, n);
            var m1 := StateAfter(cfg, map[], a);
            var m2 := StateAfter(cfg, m1, b);
            && Verdicts(cfg, map[], a) == Yes(n)
            && Verdicts(cfg, m2, c) == Yes(n)
  {
    var n := cfg.Tokens();
    FreshBurst(cfg, map[], VICTIM, 0);
    var m1 := map[VICTIM := Bucket(0, 0)];
    assert StateAfter(cfg, map[], Same(VICTIM, 0, n)) == m1;
    SprayFills(cfg, m1, 0, MAX_TRACKED_IPS);
    var m2 := StateAfter(cfg, m1, Spray(0, MAX_TRACKED_IPS));
    assert Swept(m2, IDLE_EVICT) == map[];
    FreshBurst(cfg, m2, VICTIM, IDLE_EVICT);
  }

  lemma OwnRunAppend(cfg: Config, m: Buckets, a: seq<Request>, b: seq<Request>, ip: IpAddr)
    ensures Own(a + b, Verdicts(cfg, m, a + b), ip)
         == Own(a, Verdicts(cfg, m, a), ip) + Own(b, Verdicts(cfg, StateAfter(cfg, m, a), b), ip)
    ensures OwnTimes(a + b, ip) == OwnTimes(a, ip) + OwnTimes(b, ip)
  {
    VerdictsAppend(cfg, m, a, b);
    OwnAppend(a, b, Verdicts(cfg, m, a), Verdicts(cfg, StateAfter(cfg, m, a), b), ip);
  }

  lemma ThenOwn(cfg: Config, m: Buckets, b: seq<Request>, c: seq<Request>, ip: IpAddr)
    requires forall i :: 0 <= i < |b| ==> b[i].ip != ip
    requires forall i :: 0 <= i < |c| ==> c[i].ip == ip
    ensures Own(b + c, Verdicts(cfg, m, b + c), ip) == Verdicts(cfg, StateAfter(cfg, m, b), c)
    ensures OwnTimes(b + c, ip) == OwnTimes(c, ip)
  {
    OwnRunAppend(cfg, m, b, c, ip);
    OwnNone(b, Verdicts(cfg, m, b), ip);
    OwnOnly(c, Verdicts(cfg, StateAfter(cfg, m, b), c), ip);
  }

  lemma ThreeStages(cfg: Config, a: seq<Request>, b: seq<Request>, c: seq<Request>, ip: IpAddr)
    requires forall i :: 0 <= i < |a| ==> a[i].ip == ip
    requires forall i :: 0 <= i < |b| ==> b[i].ip != ip
    requires forall i :: 0 <= i < |c| ==> c[i].ip == ip
    ensures var m1 := StateAfter(cfg, map[], a);
            var m2 := StateAfter(cfg, m1, b);
            Own(a + (b + c), Verdicts(cfg, map[], a + (b + c)), ip) == Verdicts(cfg, map[], a) + Verdicts(cfg, m2, c)
    ensures OwnTimes(a + (b + c), ip) == OwnTimes(a, ip) + OwnTimes(c, ip)
  {
    var m1 := StateAfter(cfg, map[], a);
    OwnRunAppend(cfg, map[], a, b + c, ip);
    OwnOnly(a, Verdicts(cfg, map[], a), ip);
    ThenOwn(cfg, m1, b, c, ip);
  }

  lemma ExposingNondecreasing(cfg: Config)
    ensures Nondecreasing(ExposingRun(cfg))
  {
    var qs := ExposingRun(cfg);
    assert forall i :: 0 <= i < |qs| ==>
      qs[i].now == if i < cfg.Tokens() + MAX_TRACKED_IPS then 0 else IDLE_EVICT;
  }

  lemma SameTimes(ip: IpAddr, now: nat, n: nat)
    ensures OwnTimes(Same(ip, now, n), ip) == Times(now, n)
  {
    OwnOnly(Same(ip, now, n), Yes(n), ip);
  }

  /** In the exposing run the evicting limiter answers every one of the victim's requests with yes. */
  lemma ExposedVerdicts(cfg: Config)
    requires cfg.Enabled()
    ensures var n := cfg.Tokens();
            && Nondecreasing(ExposingRun(cfg))
            && Own(ExposingRun(cfg), Verdicts(cfg, map[], ExposingRun(cfg)), VICTIM) == Yes(2 * n)
            && OwnTimes(ExposingRun(cfg), VICTIM) == Times(0, n) + Times(IDLE_EVICT, n)
  {
    var n := cfg.Tokens();
    var a, b, c := Same(VICTIM, 0, n), Spray(0, MAX_TRACKED_IPS), Same(VICTIM, IDLE_EVICT, n);
    ThreeStages(cfg, a, b, c, VICTIM);
    ExposingStages(cfg);
    SameTimes(VICTIM, 0, n);
    SameTimes(VICTIM, IDLE_EVICT, n);
    assert Yes(n) + Yes(n) == Yes(2 * n);
    ExposingNondecreasing(cfg);
  }

  lemma EvictionExposed(cfg: Config)
    requires cfg.Enabled() && cfg.Tokens() > 10 * cfg.perMin
    ensures !EvictionInvisible(cfg)
  {
    var qs := ExposingRun(cfg);
    ExposedVerdicts(cfg);
    AloneRefuses(cfg);
    assert Own(qs, Verdicts(cfg, map[], qs), VICTIM)[2 * cfg.Tokens() - 1];
    assert Own(qs, Verdicts(cfg, map[], qs), VICTIM) != Alone(cfg, None, OwnTimes(qs, VICTIM));
  }

  /**
   Eviction is invisible exactly when the limiter is disabled or the burst refills within the
   idle period: `burst.max(1) <= 10 * per_min`.
   */
  lemma EvictionInvisibleIff(cfg: Config)
    ensures EvictionInvisible(cfg) <==> !cfg.Enabled() || cfg.Tokens() <= 10 * cfg.perMin
  {
    if !cfg.Enabled() {
      forall qs, ip | Nondecreasing(qs)
        ensures Own(qs, Verdicts(cfg, map[], qs), ip) == Alone(cfg, None, OwnTimes(qs, ip))
      {
        DisabledAllows(cfg, map[], qs, ip);
      }
    } else if cfg.Tokens() <= 10 * cfg.perMin {
      forall qs, ip | Nondecreasing(qs)
        ensures Own(qs, Verdicts(cfg, map[], qs), ip) == Alone(cfg, None, OwnTimes(qs, ip))
      {
        Simulate(cfg, map[], None, qs, ip, 0);
      }
    } else {
      EvictionExposed(cfg);
    }
  }
}
