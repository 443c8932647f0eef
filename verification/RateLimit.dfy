/**
 Per-IP token-bucket limiter (src/ratelimit.rs).

 Token counts are exact: one token is `UNIT` = 60 * 10^9 units, an instant is a number of
 nanoseconds, and `perMin` tokens per minute is therefore `perMin` units per nanosecond.
 The source keeps the same quantities as `f64`; its rounding is not modelled.
 */
module RateLimit {
  import opened Text

  const UNIT: nat := 60_000_000_000
  const IDLE_EVICT: nat := 600_000_000_000
  const MAX_TRACKED_IPS: nat := 100_000

  type U32 = n: int | 0 <= n < 0x1_0000_0000
  type U128 = n: int | 0 <= n < 0x1_00000000_00000000_00000000_00000000

  datatype IpAddr = V4(bits: U32) | V6(wide: U128)

  datatype Bucket = Bucket(tokens: nat, last: nat)

  datatype Config = Config(perMin: U32, burst: U32) {
    /** `burst.max(1)`, in tokens. */
    function Tokens(): nat {
      if burst < 1 then 1 else burst
    }

    function Capacity(): nat {
      Tokens() * UNIT
    }

    predicate Enabled() {
      perMin > 0
    }
  }

  datatype Request = Request(ip: IpAddr, now: nat)

  type Buckets = map<IpAddr, Bucket>

  // ---------------------------------------------------------------- one request

  /** `now.saturating_duration_since(last)`. */
  function Elapsed(now: nat, last: nat): nat {
    if last <= now then now - last else 0
  }

  function Min(a: nat, b: nat): nat {
    if a <= b then a else b
  }

  function Swept(m: Buckets, now: nat): Buckets {
    if |m| > MAX_TRACKED_IPS
    then map ip | ip in m && Elapsed(now, m[ip].last) < IDLE_EVICT :: m[ip]
    else m
  }

  /** Refill a bucket (a full one if there is none yet) and try to take one token. */
  function Take(cfg: Config, b: Option<Bucket>, now: nat): (Bucket, bool) {
    var b0 := if b.Some? then b.value else Bucket(cfg.Capacity(), now);
    var tokens := Min(b0.tokens + Elapsed(now, b0.last) * cfg.perMin, cfg.Capacity());
    if tokens >= UNIT then (Bucket(tokens - UNIT, now), true) else (Bucket(tokens, now), false)
  }

  function Lookup(m: Buckets, ip: IpAddr): Option<Bucket> {
    if ip in m then Some(m[ip]) else None
  }

  function Step(cfg: Config, m: Buckets, q: Request): (Buckets, bool) {
    if !cfg.Enabled() then (m, true) else
    var kept := Swept(m, q.now);
    var (b, ok) := Take(cfg, Lookup(kept, q.ip), q.now);
    (kept[q.ip := b], ok)
  }

  /** The limiter itself; `CheckAt` mutates its table as `Step` says. */
  class RateLimiter {
    const cfg: Config
    var buckets: Buckets

    constructor (perMin: U32, burst: U32)
      ensures cfg == Config(perMin, burst) && buckets == map[]
    {
      cfg := Config(perMin, burst);
      buckets := map[];
    }

    method CheckAt(ip: IpAddr, now: nat) returns (allowed: bool)
      modifies this`buckets
      ensures (buckets, allowed) == Step(cfg, old(buckets), Request(ip, now))
    {
      if cfg.perMin == 0 {
        return true;
      }
      if |buckets| > MAX_TRACKED_IPS {
        buckets := map k | k in buckets && Elapsed(now, buckets[k].last) < IDLE_EVICT :: buckets[k];
      }
      if ip !in buckets {
        buckets := buckets[ip := Bucket(cfg.Capacity(), now)];
      }
      var b := buckets[ip];
      var tokens := Min(b.tokens + Elapsed(now, b.last) * cfg.perMin, cfg.Capacity());
      allowed := tokens >= UNIT;
      if allowed {
        tokens := tokens - UNIT;
      }
      buckets := buckets[ip := Bucket(tokens, now)];
      assert buckets == Step(cfg, old(buckets), Request(ip, now)).0;
    }
  }

  // ---------------------------------------------------------------- runs

  predicate Nondecreasing(qs: seq<Request>) {
    forall i, j :: 0 <= i <= j < |qs| ==> qs[i].now <= qs[j].now
  }

  function Verdicts(cfg: Config, m: Buckets, qs: seq<Request>): (v: seq<bool>)
    ensures |v| == |qs|
    decreases |qs|
  {
    if qs == [] then [] else
    var (m', ok) := Step(cfg, m, qs[0]);
    [ok] + Verdicts(cfg, m', qs[1..])
  }

  function StateAfter(cfg: Config, m: Buckets, qs: seq<Request>): Buckets
    decreases |qs|
  {
    if qs == [] then m else StateAfter(cfg, Step(cfg, m, qs[0]).0, qs[1..])
  }

  /** The verdicts that answer `ip`'s own requests, in order. */
  function Own(qs: seq<Request>, vs: seq<bool>, ip: IpAddr): seq<bool>
    requires |qs| == |vs|
  {
    if qs == [] then []
    else if qs[0].ip == ip then [vs[0]] + Own(qs[1..], vs[1..], ip)
    else Own(qs[1..], vs[1..], ip)
  }

  function OwnTimes(qs: seq<Request>, ip: IpAddr): seq<nat> {
    if qs == [] then []
    else if qs[0].ip == ip then [qs[0].now] + OwnTimes(qs[1..], ip)
    else OwnTimes(qs[1..], ip)
  }

  function Allowed(qs: seq<Request>, vs: seq<bool>, ip: IpAddr): nat
    requires |qs| == |vs|
  {
    if qs == [] then 0
    else if qs[0].ip == ip && vs[0] then 1 + Allowed(qs[1..], vs[1..], ip)
    else Allowed(qs[1..], vs[1..], ip)
  }

  lemma VerdictsCons(cfg: Config, m: Buckets, qs: seq<Request>)
    requires qs != []
    ensures Verdicts(cfg, m, qs)[0] == Step(cfg, m, qs[0]).1
    ensures Verdicts(cfg, m, qs)[1..] == Verdicts(cfg, Step(cfg, m, qs[0]).0, qs[1..])
  {
  }

  /** The first request of `ip` in a run is answered by `Take`; every other one leaves its slot to the sweep. */
  lemma StepSlot(cfg: Config, m: Buckets, q: Request, ip: IpAddr)
    requires cfg.Enabled()
    ensures var (m', ok) := Step(cfg, m, q);
            if q.ip == ip then ip in m' && (m'[ip], ok) == Take(cfg, Lookup(Swept(m, q.now), ip), q.now)
            else Lookup(m', ip) == Lookup(Swept(m, q.now), ip)
  {
  }

  /** What one `Take` spends and keeps. */
  lemma TakeSpends(cfg: Config, b: Option<Bucket>, now: nat)
    ensures var (b', ok) := Take(cfg, b, now);
            && b'.last == now
            && b'.tokens + (if ok then UNIT else 0) <= cfg.Capacity()
            && (b.Some? ==> b'.tokens + (if ok then UNIT else 0)
                            <= b.value.tokens + Elapsed(now, b.value.last) * cfg.perMin)
  {
  }

  lemma {:induction false} VerdictsAppend(cfg: Config, m: Buckets, a: seq<Request>, b: seq<Request>)
    ensures Verdicts(cfg, m, a + b) == Verdicts(cfg, m, a) + Verdicts(cfg, StateAfter(cfg, m, a), b)
    ensures StateAfter(cfg, m, a + b) == StateAfter(cfg, StateAfter(cfg, m, a), b)
    decreases |a|
  {
    if a == [] {
      assert a + b == b;
    } else {
      assert (a + b)[1..] == a[1..] + b;
      VerdictsAppend(cfg, Step(cfg, m, a[0]).0, a[1..], b);
    }
  }

  lemma {:induction false} OwnAppend(a: seq<Request>, b: seq<Request>, u: seq<bool>, w: seq<bool>, ip: IpAddr)
    requires |a| == |u| && |b| == |w|
    ensures Own(a + b, u + w, ip) == Own(a, u, ip) + Own(b, w, ip)
    ensures OwnTimes(a + b, ip) == OwnTimes(a, ip) + OwnTimes(b, ip)
  {
    if a == [] {
      assert a + b == b && u + w == w;
    } else {
      assert (a + b)[1..] == a[1..] + b && (u + w)[1..] == u[1..] + w;
      OwnAppend(a[1..], b, u[1..], w, ip);
    }
  }

  // ---------------------------------------------------------------- arithmetic

  lemma MulMono(a: nat, b: nat, r: nat)
    requires a <= b
    ensures a * r <= b * r
  {
  }

  lemma MulSplit(a: nat, b: nat, r: nat)
    ensures (a + b) * r == a * r + b * r
  {
  }
}
