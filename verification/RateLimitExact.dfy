/** Exactly which requests the limiter answers yes, in terms of instants and earlier verdicts alone. */
module RateLimitExact {
  import opened RateLimit
  import opened Text
  import opened RateLimitEviction

  /** A client's own requests so far: their instants and verdicts. */
  datatype History = History(ts: seq<nat>, vs: seq<bool>)

  predicate Ascending(ts: seq<nat>) {
    forall i, j :: 0 <= i <= j < |ts| ==> ts[i] <= ts[j]
  }

  /** How many of `vs[i..]` are yes. */
  function Yeses(vs: seq<bool>, i: nat): nat
    requires i <= |vs|
    decreases |vs|
  {
    if i == |vs| then 0 else Yeses(vs[..|vs| - 1], i) + if vs[|vs| - 1] then 1 else 0
  }

  /** What a bucket that was full at request `i` has left at instant `now`: refill added, verdicts since paid. */
  function Room(cfg: Config, h: History, i: nat, now: nat): int
    requires i < |h.ts| == |h.vs|
  {
    cfg.Capacity() + (now - h.ts[i]) * cfg.perMin - Yeses(h.vs, i) * UNIT
  }

  /** A request at `now` fits: every window that ends here, and that of the request alone, leaves room for a token. */
  ghost predicate Fits(cfg: Config, h: History, now: nat)
    requires |h.ts| == |h.vs|
  {
    forall i: nat :: i < |h.ts| ==> Room(cfg, h, i, now) >= UNIT
  }

  // ---------------------------------------------------------------- one more request

  function After(h: History, now: nat, ok: bool): History {
    History(h.ts + [now], h.vs + [ok])
  }

  /** One more verdict is paid from every window; the window of the request itself starts full. */
  lemma RoomAfter(cfg: Config, h: History, i: nat, now: nat, ok: bool)
    requires i <= |h.ts| == |h.vs|
    ensures Room(cfg, After(h, now, ok), i, now)
         == (if i == |h.ts| then cfg.Capacity() else Room(cfg, h, i, now)) - if ok then UNIT else 0
  {
    assert (h.vs + [ok])[..|h.vs|] == h.vs;
    assert Yeses(h.vs + [ok], i) == Yeses(h.vs, i) + if ok then 1 else 0;
  }

  /** Time adds refill to every window. */
  lemma RoomLater(cfg: Config, h: History, i: nat, now: nat, later: nat)
    requires i < |h.ts| == |h.vs| && h.ts[i] <= now <= later
    ensures Room(cfg, h, i, later) == Room(cfg, h, i, now) + (later - now) * cfg.perMin
  {
    MulSplit(now - h.ts[i], later - now, cfg.perMin);
  }

  /** The bucket holds the room of one of the client's windows. */
  ghost predicate Reached(cfg: Config, h: History, b: Bucket) {
    && |h.ts| == |h.vs| && h.ts != [] && Ascending(h.ts) && b.last == h.ts[|h.ts| - 1]
    && exists i: nat :: i < |h.ts| && Room(cfg, h, i, b.last) == b.tokens
  }

  /** And no window has less. */
  ghost predicate Least(cfg: Config, h: History, b: Bucket) {
    && Reached(cfg, h, b)
    && forall i: nat :: i < |h.ts| ==> b.tokens <= Room(cfg, h, i, b.last)
  }

  ghost predicate Follows(h: History, now: nat) {
    |h.ts| == |h.vs| && Ascending(h.ts) && (h.ts != [] ==> h.ts[|h.ts| - 1] <= now)
  }

  lemma AscendingSnoc(h: History, now: nat)
    requires Follows(h, now)
    ensures Ascending(h.ts + [now])
  {
  }

  /** A full bucket: what `Take` finds for a new or evicted address. */
  lemma TakeFull(cfg: Config, h: History, now: nat)
    requires Follows(h, now)
    ensures var (b, ok) := Take(cfg, None, now);
            ok && Reached(cfg, After(h, now, ok), b) && (h.ts == [] ==> Least(cfg, After(h, now, ok), b))
  {
    var (b, ok) := Take(cfg, None, now);
    AscendingSnoc(h, now);
    MulMono(1, cfg.Tokens(), UNIT);
    RoomAfter(cfg, h, |h.ts|, now, ok);
  }

  /** Refill then spend: if a yes is answered no, one of the windows has no room. */
  lemma TakeReached(cfg: Config, h: History, b: Bucket, now: nat)
    requires Reached(cfg, h, b) && Follows(h, now)
    ensures var (b', ok) := Take(cfg, Some(b), now);
            Reached(cfg, After(h, now, ok), b') && (!ok ==> !Fits(cfg, h, now))
  {
    var (b', ok) := Take(cfg, Some(b), now);
    AscendingSnoc(h, now);
    var i: nat :| i < |h.ts| && Room(cfg, h, i, b.last) == b.tokens;
    RoomLater(cfg, h, i, b.last, now);
    RoomAfter(cfg, h, i, now, ok);
    RoomAfter(cfg, h, |h.ts|, now, ok);
    MulMono(1, cfg.Tokens(), UNIT);
    var h' := After(h, now, ok);
    assert Room(cfg, h', i, now) == b'.tokens || Room(cfg, h', |h.ts|, now) == b'.tokens;
  }

  lemma TakeLeast(cfg: Config, h: History, b: Bucket, now: nat)
    requires Least(cfg, h, b) && Follows(h, now)
    ensures var (b', ok) := Take(cfg, Some(b), now);
            Least(cfg, After(h, now, ok), b') && (ok <==> Fits(cfg, h, now))
  {
    var (b', ok) := Take(cfg, Some(b), now);
    TakeReached(cfg, h, b, now);
    RoomAfter(cfg, h, |h.ts|, now, ok);
    forall i: nat | i < |h.ts|
      ensures b.tokens + (now - b.last) * cfg.perMin <= Room(cfg, h, i, now)
      ensures b'.tokens <= Room(cfg, After(h, now, ok), i, now)
    {
      RoomLater(cfg, h, i, b.last, now);
      RoomAfter(cfg, h, i, now, ok);
    }
  }

  // ---------------------------------------------------------------- a client on its own

  function Before(h: History, n: nat): History
    requires n <= |h.ts| == |h.vs|
  {
    History(h.ts[..n], h.vs[..n])
  }

  /** Each verdict from the `k`-th on is yes exactly when its request fits what came before. */
  ghost predicate ExactFrom(cfg: Config, h: History, k: nat) {
    |h.ts| == |h.vs| && forall n :: k <= n < |h.ts| ==> (h.vs[n] <==> Fits(cfg, Before(h, n), h.ts[n]))
  }

  /** No verdict from the `k`-th on is no while its request fits. */
  ghost predicate NeverEarlyFrom(cfg: Config, h: History, k: nat) {
    |h.ts| == |h.vs| && forall n :: k <= n < |h.ts| ==> (!h.vs[n] ==> !Fits(cfg, Before(h, n), h.ts[n]))
  }

  function Joined(h: History, ts: seq<nat>, vs: seq<bool>): History {
    History(h.ts + ts, h.vs + vs)
  }

  lemma BeforeJoined(h: History, ts: seq<nat>, vs: seq<bool>)
    requires |h.ts| == |h.vs| && |ts| == |vs|
    ensures Before(Joined(h, ts, vs), |h.ts|) == h
    ensures ts != [] ==> Joined(h, ts, vs) == Joined(After(h, ts[0], vs[0]), ts[1..], vs[1..])
    ensures ts != [] ==> Joined(h, ts, vs).ts[|h.ts|] == ts[0] && Joined(h, ts, vs).vs[|h.ts|] == vs[0]
  {
    var j := Joined(h, ts, vs);
    assert j.ts[..|h.ts|] == h.ts && j.vs[..|h.vs|] == h.vs;
    if ts != [] {
      assert ts == [ts[0]] + ts[1..] && vs == [vs[0]] + vs[1..];
    }
  }

  lemma ExactCons(cfg: Config, h: History, ts: seq<nat>, vs: seq<bool>)
    requires |h.ts| == |h.vs| && |ts| == |vs| > 0 && (vs[0] <==> Fits(cfg, h, ts[0]))
    requires ExactFrom(cfg, Joined(After(h, ts[0], vs[0]), ts[1..], vs[1..]), |h.ts| + 1)
    ensures ExactFrom(cfg, Joined(h, ts, vs), |h.ts|)
  {
    BeforeJoined(h, ts, vs);
  }

  lemma NeverEarlyCons(cfg: Config, h: History, ts: seq<nat>, vs: seq<bool>)
    requires |h.ts| == |h.vs| && |ts| == |vs| > 0 && (!vs[0] ==> !Fits(cfg, h, ts[0]))
    requires NeverEarlyFrom(cfg, Joined(After(h, ts[0], vs[0]), ts[1..], vs[1..]), |h.ts| + 1)
    ensures NeverEarlyFrom(cfg, Joined(h, ts, vs), |h.ts|)
  {
    BeforeJoined(h, ts, vs);
  }

  /** The first of the instants follows the history, and the rest follow both. */
  lemma FollowsFirst(h: History, ts: seq<nat>)
    requires |h.ts| == |h.vs| && ts != [] && Ascending(h.ts + ts)
    ensures Follows(h, ts[0]) && Ascending((h.ts + [ts[0]]) + ts[1..])
  {
    var all := h.ts + ts;
    assert all[|h.ts|] == ts[0];
    assert forall i :: 0 <= i < |h.ts| ==> h.ts[i] == all[i];
    assert (h.ts + [ts[0]]) + ts[1..] == all;
  }

  /** What a bucket has to do with the history of its client. */
  ghost predicate Tracks(cfg: Config, h: History, b: Option<Bucket>) {
    if b.None? then h.ts == [] else Least(cfg, h, b.value)
  }

  lemma TakeTracks(cfg: Config, h: History, b: Option<Bucket>, now: nat)
    requires Tracks(cfg, h, b) && Follows(h, now)
    ensures var (b', ok) := Take(cfg, b, now);
            Tracks(cfg, After(h, now, ok), Some(b')) && (ok <==> Fits(cfg, h, now))
  {
    if b.None? {
      TakeFull(cfg, h, now);
    } else {
      TakeLeast(cfg, h, b.value, now);
    }
  }

  lemma AloneHead(cfg: Config, b: Option<Bucket>, ts: seq<nat>)
    requires cfg.Enabled() && ts != []
    ensures var (b', ok) := Take(cfg, b, ts[0]);
            Alone(cfg, b, ts)[0] == ok && Alone(cfg, b, ts)[1..] == Alone(cfg, Some(b'), ts[1..])
  {
  }

  lemma {:induction false} AloneExactFrom(cfg: Config, h: History, b: Option<Bucket>, ts: seq<nat>)
    requires cfg.Enabled() && Ascending(h.ts + ts) && |h.ts| == |h.vs| && Tracks(cfg, h, b)
    ensures ExactFrom(cfg, Joined(h, ts, Alone(cfg, b, ts)), |h.ts|)
    decreases |ts|
  {
    if ts == [] {
    } else {
      var (b', ok) := Take(cfg, b, ts[0]);
      FollowsFirst(h, ts);
      TakeTracks(cfg, h, b, ts[0]);
      AloneExactFrom(cfg, After(h, ts[0], ok), Some(b'), ts[1..]);
      AloneHead(cfg, b, ts);
      ExactCons(cfg, h, ts, Alone(cfg, b, ts));
    }
  }

  /**
   The never-evicted client: a request is allowed exactly when every window of the client's own
   requests that ends with it leaves room for one more token.
   */
  lemma AloneExact(cfg: Config, ts: seq<nat>)
    requires cfg.Enabled() && Ascending(ts)
    ensures ExactFrom(cfg, History(ts, Alone(cfg, None, ts)), 0)
  {
    var none := History([], []);
    assert none.ts + ts == ts && none.vs + Alone(cfg, None, ts) == Alone(cfg, None, ts);
    AloneExactFrom(cfg, none, None, ts);
  }

  // ---------------------------------------------------------------- the limiter itself

  /** What the table has to do with the history of one address: nothing, if it holds no bucket for it. */
  ghost predicate Holds(cfg: Config, h: History, m: Buckets, ip: IpAddr) {
    |h.ts| == |h.vs| && (ip in m ==> Reached(cfg, h, m[ip]))
  }

  lemma StepHolds(cfg: Config, h: History, m: Buckets, q: Request, ip: IpAddr)
    requires cfg.Enabled() && Holds(cfg, h, m, ip) && (q.ip == ip ==> Follows(h, q.now))
    ensures var (m', ok) := Step(cfg, m, q);
            if q.ip == ip then Holds(cfg, After(h, q.now, ok), m', ip) && (!ok ==> !Fits(cfg, h, q.now))
            else Holds(cfg, h, m', ip)
  {
    StepSlot(cfg, m, q, ip);
    if q.ip != ip {
    } else if ip in Swept(m, q.now) {
      TakeReached(cfg, h, m[ip], q.now);
    } else {
      TakeFull(cfg, h, q.now);
    }
  }

  lemma OwnHead(cfg: Config, m: Buckets, qs: seq<Request>, ip: IpAddr)
    requires qs != []
    ensures var (m', ok) := Step(cfg, m, qs[0]);
            var ts, vs := OwnTimes(qs[1..], ip), Own(qs[1..], Verdicts(cfg, m', qs[1..]), ip);
            && OwnTimes(qs, ip) == (if qs[0].ip == ip then [qs[0].now] + ts else ts)
            && Own(qs, Verdicts(cfg, m, qs), ip) == (if qs[0].ip == ip then [ok] + vs else vs)
  {
    VerdictsCons(cfg, m, qs);
  }

  lemma {:induction false} OwnLengths(qs: seq<Request>, vs: seq<bool>, ip: IpAddr)
    requires |qs| == |vs|
    ensures |OwnTimes(qs, ip)| == |Own(qs, vs, ip)|
  {
    if qs == [] {
    } else {
      OwnLengths(qs[1..], vs[1..], ip);
    }
  }

  lemma {:induction false} NeverEarlyRun(cfg: Config, h: History, m: Buckets, qs: seq<Request>, ip: IpAddr)
    requires cfg.Enabled() && Holds(cfg, h, m, ip) && Ascending(h.ts + OwnTimes(qs, ip))
    ensures NeverEarlyFrom(cfg, Joined(h, OwnTimes(qs, ip), Own(qs, Verdicts(cfg, m, qs), ip)), |h.ts|)
    decreases |qs|
  {
    OwnLengths(qs, Verdicts(cfg, m, qs), ip);
    if qs == [] {
    } else {
      var q := qs[0];
      var (m', ok) := Step(cfg, m, q);
      OwnHead(cfg, m, qs, ip);
      var ts, vs := OwnTimes(qs, ip), Own(qs, Verdicts(cfg, m, qs), ip);
      if q.ip == ip {
        FollowsFirst(h, ts);
        StepHolds(cfg, h, m, q, ip);
        NeverEarlyRun(cfg, After(h, q.now, ok), m', qs[1..], ip);
        NeverEarlyCons(cfg, h, ts, vs);
      } else {
        StepHolds(cfg, h, m, q, ip);
        NeverEarlyRun(cfg, h, m', qs[1..], ip);
      }
    }
  }

  /** The instants and verdicts of one address in a run of a new limiter. */
  function OwnHistory(cfg: Config, qs: seq<Request>, ip: IpAddr): History {
    History(OwnTimes(qs, ip), Own(qs, Verdicts(cfg, map[], qs), ip))
  }

  lemma {:induction false} OwnTimesFrom(qs: seq<Request>, ip: IpAddr, start: nat)
    requires Nondecreasing(qs) && (qs != [] ==> start <= qs[0].now)
    ensures Ascending(OwnTimes(qs, ip)) && forall i :: 0 <= i < |OwnTimes(qs, ip)| ==> start <= OwnTimes(qs, ip)[i]
    decreases |qs|
  {
    if qs == [] {
    } else {
      OwnTimesFrom(qs[1..], ip, qs[0].now);
    }
  }

  /**
   Over every interleaved run with nondecreasing instants, for any burst and with evictions: an
   address is refused only when one of its own windows is used up, so a refusal costs it nothing.
   */
  lemma RefusedOnlyWhenUsedUp(cfg: Config, qs: seq<Request>, ip: IpAddr)
    requires cfg.Enabled() && Nondecreasing(qs)
    ensures NeverEarlyFrom(cfg, OwnHistory(cfg, qs, ip), 0)
  {
    OwnTimesFrom(qs, ip, 0);
    var none := History([], []);
    assert none.ts + OwnTimes(qs, ip) == OwnTimes(qs, ip);
    assert Joined(none, OwnTimes(qs, ip), Own(qs, Verdicts(cfg, map[], qs), ip)) == OwnHistory(cfg, qs, ip);
    NeverEarlyRun(cfg, none, map[], qs, ip);
  }

  /** Where eviction is invisible, it is allowed exactly when none of its windows is used up. */
  lemma AllowedExactly(cfg: Config, qs: seq<Request>, ip: IpAddr)
    requires cfg.Enabled() && Nondecreasing(qs) && cfg.Tokens() <= 10 * cfg.perMin
    ensures ExactFrom(cfg, OwnHistory(cfg, qs, ip), 0)
  {
    OwnTimesFrom(qs, ip, 0);
    EvictionInvisibleIff(cfg);
    AloneExact(cfg, OwnTimes(qs, ip));
  }

  /** One request a second, polled twice as often: every other request is allowed. */
  lemma HalfSecondPolling()
    ensures Alone(Config(60, 1), None, [0, 500_000_000, 1_000_000_000]) == [true, false, true]
  {
    var cfg, ts := Config(60, 1), [0, 500_000_000, 1_000_000_000];
    assert Take(cfg, None, 0) == (Bucket(0, 0), true);
    assert Take(cfg, Some(Bucket(0, 0)), 500_000_000) == (Bucket(UNIT / 2, 500_000_000), false);
    assert Take(cfg, Some(Bucket(UNIT / 2, 500_000_000)), 1_000_000_000) == (Bucket(0, 1_000_000_000), true);
    AloneHead(cfg, None, ts);
    AloneHead(cfg, Some(Bucket(0, 0)), ts[1..]);
    AloneHead(cfg, Some(Bucket(UNIT / 2, 500_000_000)), ts[1..][1..]);
    assert ts[1..] == [500_000_000, 1_000_000_000] && ts[1..][1..] == [1_000_000_000];
  }

  // ---------------------------------------------------------------- the settings

  /** A bucket of `k` tokens allows `k` simultaneous requests. */
  lemma {:induction false} BucketAllows(cfg: Config, k: nat, now: nat, n: nat)
    requires cfg.Enabled() && k <= cfg.Tokens() && n > 0
    ensures Alone(cfg, Some(Bucket(k * UNIT, now)), Times(now, n))[n - 1] <==> n <= k
    decreases n
  {
    AloneTimes(cfg, Some(Bucket(k * UNIT, now)), now, n);
    if k > 0 {
      TakeWhole(cfg, k, now);
      if n > 1 {
        BucketAllows(cfg, k - 1, now, n - 1);
      }
    } else {
      TakeDry(cfg, now);
      if n > 1 {
        BucketAllows(cfg, 0, now, n - 1);
      }
    }
  }

  /** A new client has its burst, and one request where the burst is set to none. */
  lemma BurstExactly(cfg: Config, now: nat, n: nat)
    requires cfg.perMin > 0 && n > 0
    ensures Alone(cfg, None, Times(now, n))[n - 1] <==> n <= if cfg.burst == 0 then 1 else cfg.burst
  {
    assert Take(cfg, None, now) == Take(cfg, Some(Bucket(cfg.Tokens() * UNIT, now)), now);
    AloneTimes(cfg, None, now, n);
    AloneTimes(cfg, Some(Bucket(cfg.Tokens() * UNIT, now)), now, n);
    BucketAllows(cfg, cfg.Tokens(), now, n);
  }

  /** With no sustained rate nothing is refused and nothing is tracked. */
  lemma {:induction false} DisabledAllowsAll(cfg: Config, qs: seq<Request>)
    requires cfg.perMin == 0
    ensures Verdicts(cfg, map[], qs) == Yes(|qs|) && StateAfter(cfg, map[], qs) == map[]
    decreases |qs|
  {
    if qs == [] {
    } else {
      DisabledAllowsAll(cfg, qs[1..]);
      VerdictsCons(cfg, map[], qs);
    }
  }
}
