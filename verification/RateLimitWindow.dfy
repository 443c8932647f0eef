/** What the limiter admits over any window of time, and how many addresses it tracks. */
module RateLimitWindow {
  import opened RateLimit
  import RateLimitEviction

  /** Units by which a reset of an evicted bucket exceeds the refill it replaces. */
  function Surplus(cfg: Config): nat {
    if cfg.Capacity() <= IDLE_EVICT * cfg.perMin then 0 else cfg.Capacity() - IDLE_EVICT * cfg.perMin
  }

  /** Units a client can gain in `d` nanoseconds, counting evictions. */
  function Gain(cfg: Config, d: nat): nat {
    d * cfg.perMin + (d / IDLE_EVICT) * Surplus(cfg)
  }

  lemma GainMono(cfg: Config, a: nat, b: nat)
    requires a <= b
    ensures Gain(cfg, a) <= Gain(cfg, b)
  {
    MulMono(a, b, cfg.perMin);
    assert a / IDLE_EVICT <= b / IDLE_EVICT;
    MulMono(a / IDLE_EVICT, b / IDLE_EVICT, Surplus(cfg));
  }

  lemma GainRefill(cfg: Config, a: nat, b: nat)
    ensures a * cfg.perMin + Gain(cfg, b) <= Gain(cfg, a + b)
  {
    MulSplit(a, b, cfg.perMin);
    assert b / IDLE_EVICT <= (a + b) / IDLE_EVICT;
    MulMono(b / IDLE_EVICT, (a + b) / IDLE_EVICT, Surplus(cfg));
  }

  lemma GainReset(cfg: Config, a: nat, b: nat)
    requires a >= IDLE_EVICT
    ensures cfg.Capacity() + Gain(cfg, b) <= Gain(cfg, a + b)
  {
    var s := Surplus(cfg);
    assert (IDLE_EVICT + b) / IDLE_EVICT == 1 + b / IDLE_EVICT;
    MulSplit(1, b / IDLE_EVICT, s);
    MulSplit(IDLE_EVICT, b, cfg.perMin);
    GainMono(cfg, IDLE_EVICT + b, a + b);
  }

  /** The head of a run contributes its own verdict to the count. */
  lemma AllowedCons(cfg: Config, m: Buckets, qs: seq<Request>, ip: IpAddr)
    requires qs != []
    ensures var (m', ok) := Step(cfg, m, qs[0]);
            Allowed(qs, Verdicts(cfg, m, qs), ip)
            == (if qs[0].ip == ip && ok then 1 else 0) + Allowed(qs[1..], Verdicts(cfg, m', qs[1..]), ip)
  {
    VerdictsCons(cfg, m, qs);
  }

  /** How far the clock moves forward over a run in all, from `cur` on; steps back are not subtracted. */
  function Forward(cur: nat, qs: seq<Request>): nat
    decreases |qs|
  {
    if qs == [] then 0 else Elapsed(qs[0].now, cur) + Forward(qs[0].now, qs[1..])
  }

  /** The units `ip` can still spend: `f` is how far the clock moved forward since its bucket was touched. */
  function Credit(cfg: Config, m: Buckets, ip: IpAddr, f: nat, ahead: nat): nat {
    if ip in m then m[ip].tokens + Gain(cfg, f + ahead) else cfg.Capacity() + Gain(cfg, ahead)
  }

  /** Forward motion since the touch of `ip`'s bucket, after request `q` at clock `cur`. */
  function Since(f: nat, cur: nat, q: Request, ip: IpAddr): nat {
    if q.ip == ip then 0 else f + Elapsed(q.now, cur)
  }

  /** One request spends from the credit of its address and never raises anyone's, whatever the clock does. */
  lemma StepSpends(cfg: Config, m: Buckets, q: Request, ip: IpAddr, f: nat, cur: nat, ahead: nat)
    requires cfg.Enabled() && ip in m && cur <= m[ip].last + f
    ensures var (m', ok) := Step(cfg, m, q);
            && (ip in m' ==> q.now <= m'[ip].last + Since(f, cur, q, ip))
            && (if q.ip == ip && ok then UNIT else 0) + Credit(cfg, m', ip, Since(f, cur, q, ip), ahead)
               <= Credit(cfg, m, ip, f, Elapsed(q.now, cur) + ahead)
  {
    var d := f + Elapsed(q.now, cur);
    StepSlot(cfg, m, q, ip);
    TakeSpends(cfg, Lookup(Swept(m, q.now), ip), q.now);
    if ip in Swept(m, q.now) {
      GainRefill(cfg, d, ahead);
      MulMono(Elapsed(q.now, m[ip].last), d, cfg.perMin);
    } else {
      GainReset(cfg, d, ahead);
    }
  }

  /** From a known bucket: its tokens and the gain over the forward motion since it was touched. */
  lemma {:induction false} FromBucket(cfg: Config, m: Buckets, qs: seq<Request>, ip: IpAddr, f: nat, cur: nat)
    requires cfg.Enabled() && ip in m && cur <= m[ip].last + f
    ensures Allowed(qs, Verdicts(cfg, m, qs), ip) * UNIT <= m[ip].tokens + Gain(cfg, f + Forward(cur, qs))
    decreases |qs|, 0
  {
    if qs == [] {
    } else {
      var q := qs[0];
      var m' := Step(cfg, m, q).0;
      AllowedCons(cfg, m, qs, ip);
      StepSpends(cfg, m, q, ip, f, cur, Forward(q.now, qs[1..]));
      if ip in m' {
        FromBucket(cfg, m', qs[1..], ip, Since(f, cur, q, ip), q.now);
      } else {
        FromAnywhere(cfg, m', qs[1..], ip, q.now);
      }
    }
  }

  /** From any state at all: one full bucket plus the gain over the forward motion. */
  lemma {:induction false} FromAnywhere(cfg: Config, m: Buckets, qs: seq<Request>, ip: IpAddr, cur: nat)
    requires cfg.Enabled()
    ensures Allowed(qs, Verdicts(cfg, m, qs), ip) * UNIT <= cfg.Capacity() + Gain(cfg, Forward(cur, qs))
    decreases |qs|, 1
  {
    if qs == [] {
    } else {
      var q := qs[0];
      var m' := Step(cfg, m, q).0;
      AllowedCons(cfg, m, qs, ip);
      GainMono(cfg, Forward(q.now, qs[1..]), Forward(cur, qs));
      if q.ip == ip {
        StepSlot(cfg, m, q, ip);
        TakeSpends(cfg, Lookup(Swept(m, q.now), ip), q.now);
        FromBucket(cfg, m', qs[1..], ip, 0, q.now);
      } else {
        FromAnywhere(cfg, m', qs[1..], ip, q.now);
      }
    }
  }

  /** Requests of `ip` allowed among requests `i` to `j - 1` of a run of a new limiter. */
  function AllowedBetween(cfg: Config, qs: seq<Request>, ip: IpAddr, i: nat, j: nat): nat
    requires i <= j <= |qs|
  {
    Allowed(qs[i..j], Verdicts(cfg, map[], qs)[i..j], ip)
  }

  lemma SliceOfPrefix(vs: seq<bool>, i: nat, j: nat)
    requires i <= j <= |vs|
    ensures vs[i..j] == vs[..j][i..]
  {
  }

  lemma VerdictsTake(cfg: Config, m: Buckets, qs: seq<Request>, i: nat)
    requires i <= |qs|
    ensures Verdicts(cfg, m, qs)[..i] == Verdicts(cfg, m, qs[..i])
  {
    VerdictsAppend(cfg, m, qs[..i], qs[i..]);
    assert qs[..i] + qs[i..] == qs;
  }

  lemma VerdictsDrop(cfg: Config, m: Buckets, qs: seq<Request>, i: nat)
    requires i <= |qs|
    ensures Verdicts(cfg, m, qs)[i..] == Verdicts(cfg, StateAfter(cfg, m, qs[..i]), qs[i..])
  {
    VerdictsAppend(cfg, m, qs[..i], qs[i..]);
    assert qs[..i] + qs[i..] == qs;
  }

  lemma WindowVerdicts(cfg: Config, qs: seq<Request>, i: nat, j: nat)
    requires i <= j <= |qs|
    ensures Verdicts(cfg, map[], qs)[i..j] == Verdicts(cfg, StateAfter(cfg, map[], qs[..i]), qs[i..j])
  {
    VerdictsDrop(cfg, map[], qs[..j], i);
    assert qs[..j][..i] == qs[..i] && qs[..j][i..] == qs[i..j];
    VerdictsTake(cfg, map[], qs, j);
    SliceOfPrefix(Verdicts(cfg, map[], qs), i, j);
  }

  /**
   The bound over any stretch of any run, with no hypothesis on the clock: one full bucket, plus the
   gain over how far the clock moves forward in all.
   */
  lemma ForwardBound(cfg: Config, qs: seq<Request>, ip: IpAddr, i: nat, j: nat)
    requires cfg.Enabled() && i < j <= |qs|
    ensures AllowedBetween(cfg, qs, ip, i, j) * UNIT <= cfg.Capacity() + Gain(cfg, Forward(qs[i].now, qs[i..j]))
  {
    WindowVerdicts(cfg, qs, i, j);
    FromAnywhere(cfg, StateAfter(cfg, map[], qs[..i]), qs[i..j], ip, qs[i].now);
  }

  /** A clock that never steps back moves forward by the span of the window. */
  lemma {:induction false} ForwardIsSpan(cur: nat, qs: seq<Request>)
    requires qs != [] && Nondecreasing(qs) && cur <= qs[0].now
    ensures Forward(cur, qs) == qs[|qs| - 1].now - cur
    decreases |qs|
  {
    if |qs| == 1 {
    } else {
      ForwardIsSpan(qs[0].now, qs[1..]);
    }
  }

  /**
   The bound over any stretch of a run with nondecreasing instants. Each full idle period in the
   window can add a whole capacity in place of the refill it would have brought.
   */
  lemma WindowBound(cfg: Config, qs: seq<Request>, ip: IpAddr, i: nat, j: nat)
    requires cfg.Enabled() && Nondecreasing(qs) && i < j <= |qs|
    ensures AllowedBetween(cfg, qs, ip, i, j) * UNIT <= cfg.Capacity() + Gain(cfg, qs[j - 1].now - qs[i].now)
  {
    ForwardBound(cfg, qs, ip, i, j);
    ForwardIsSpan(qs[i].now, qs[i..j]);
  }

  lemma GainCoarse(cfg: Config, d: nat)
    ensures cfg.Capacity() + Gain(cfg, d) <= cfg.Capacity() * (1 + d / IDLE_EVICT) + d * cfg.perMin
  {
    var k := d / IDLE_EVICT;
    MulMono(Surplus(cfg), cfg.Capacity(), k);
    MulSplit(1, k, cfg.Capacity());
  }

  /** The same bound without the refill that each reset replaces. */
  lemma WindowBoundCoarse(cfg: Config, qs: seq<Request>, ip: IpAddr, i: nat, j: nat, d: nat)
    requires cfg.Enabled() && Nondecreasing(qs) && i < j <= |qs| && qs[j - 1].now - qs[i].now <= d
    ensures AllowedBetween(cfg, qs, ip, i, j) * UNIT <= cfg.Capacity() * (1 + d / IDLE_EVICT) + d * cfg.perMin
  {
    WindowBound(cfg, qs, ip, i, j);
    GainMono(cfg, qs[j - 1].now - qs[i].now, d);
    GainCoarse(cfg, d);
  }

  function CountTrue(vs: seq<bool>): nat {
    if vs == [] then 0 else (if vs[0] then 1 else 0) + CountTrue(vs[1..])
  }

  lemma {:induction false} AllowedIsCount(qs: seq<Request>, vs: seq<bool>, ip: IpAddr)
    requires |qs| == |vs|
    ensures Allowed(qs, vs, ip) == CountTrue(Own(qs, vs, ip))
  {
    if qs == [] {
    } else {
      AllowedIsCount(qs[1..], vs[1..], ip);
      if qs[0].ip == ip {
        assert Own(qs, vs, ip)[1..] == Own(qs[1..], vs[1..], ip);
      }
    }
  }

  lemma {:induction false} CountAll(n: nat)
    ensures CountTrue(RateLimitEviction.Yes(n)) == n
  {
    if n == 0 {
    } else {
      assert RateLimitEviction.Yes(n)[1..] == RateLimitEviction.Yes(n - 1);
      CountAll(n - 1);
    }
  }

  /** The bound is attained: a window of one idle period can let two whole bursts through. */
  lemma WindowBoundAttained(cfg: Config)
    requires cfg.Enabled() && cfg.Tokens() > 10 * cfg.perMin
    ensures var qs := RateLimitEviction.ExposingRun(cfg);
            && Nondecreasing(qs) && qs[|qs| - 1].now - qs[0].now == IDLE_EVICT
            && AllowedBetween(cfg, qs, RateLimitEviction.VICTIM, 0, |qs|) * UNIT
               == cfg.Capacity() + Gain(cfg, IDLE_EVICT)
  {
    var qs := RateLimitEviction.ExposingRun(cfg);
    RateLimitEviction.ExposedVerdicts(cfg);
    var vs := Verdicts(cfg, map[], qs);
    assert qs[0..|qs|] == qs && vs[0..|qs|] == vs;
    AllowedIsCount(qs, vs, RateLimitEviction.VICTIM);
    CountAll(2 * cfg.Tokens());
    assert IDLE_EVICT / IDLE_EVICT == 1;
  }

  /**
   After any step of an enabled limiter, at most `MAX_TRACKED_IPS + 1` addresses are tracked or
   every tracked bucket was touched within the idle period. No hypothesis on the clock.
   */
  lemma TrackedBound(cfg: Config, m: Buckets, q: Request)
    requires cfg.Enabled()
    ensures var m' := Step(cfg, m, q).0;
            || |m'| <= MAX_TRACKED_IPS + 1
            || forall ip :: ip in m' ==> Elapsed(q.now, m'[ip].last) < IDLE_EVICT
  {
    if |m| <= MAX_TRACKED_IPS {
      var m' := Step(cfg, m, q).0;
      assert m'.Keys == m.Keys + {q.ip};
      assert |m'| == |m'.Keys| <= |m.Keys| + 1 == |m| + 1;
    }
  }

  // ---------------------------------------------------------------- a clock that steps back

  /** Requests that alternate between instants 0 and `UNIT`. */
  function Alternating(ip: IpAddr, n: nat): (qs: seq<Request>)
    ensures |qs| == 2 * n
    ensures forall i :: 0 <= i < 2 * n ==> qs[i] == Request(ip, if i % 2 == 0 then 0 else UNIT)
  {
    seq(2 * n, i => Request(ip, if i % 2 == 0 then 0 else UNIT))
  }

  lemma AlternatingStep(ip: IpAddr, n: nat)
    requires n > 0
    ensures var qs := Alternating(ip, n);
            qs[0] == Request(ip, 0) && qs[1] == Request(ip, UNIT) && qs[1..][1..] == Alternating(ip, n - 1)
  {
    var qs := Alternating(ip, n);
    forall i | 0 <= i < 2 * n - 2 ensures qs[1..][1..][i] == Alternating(ip, n - 1)[i] {
      assert qs[1..][1..][i] == qs[i + 2];
    }
  }

  /** A request at 0 sets the bucket back, so that the one at `UNIT` finds a token. */
  lemma StepBackAllows(cfg: Config, m: Buckets, ip: IpAddr)
    requires cfg.Enabled()
    ensures Step(cfg, Step(cfg, m, Request(ip, 0)).0, Request(ip, UNIT)).1
  {
    var m1 := Step(cfg, m, Request(ip, 0)).0;
    var kept := Swept(m1, UNIT);
    assert ip in kept && kept[ip].last == 0;
    MulMono(1, cfg.perMin, UNIT);
  }

  /**
   The hypothesis on the clock is needed: when instants may step back, a window of fixed length
   admits any number of requests.
   */
  lemma {:induction false} BackwardClockUnbounded(cfg: Config, m: Buckets, ip: IpAddr, n: nat)
    requires cfg.Enabled()
    ensures Allowed(Alternating(ip, n), Verdicts(cfg, m, Alternating(ip, n)), ip) >= n
    decreases n
  {
    if n == 0 {
    } else {
      var qs := Alternating(ip, n);
      AlternatingStep(ip, n);
      StepBackAllows(cfg, m, ip);
      var m1 := Step(cfg, m, qs[0]).0;
      AllowedCons(cfg, m, qs, ip);
      AllowedCons(cfg, m1, qs[1..], ip);
      BackwardClockUnbounded(cfg, Step(cfg, m1, qs[1]).0, ip, n - 1);
    }
  }
}
