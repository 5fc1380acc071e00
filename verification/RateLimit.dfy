/** The in-memory token-bucket limiter and its sweeper, with times and token counts as reals. */
module RateLimit {

  datatype Bucket = Bucket(tokens: real, last: real, maxBurst: int)

  datatype Limiter = Limiter(rps: real, burst: int, buckets: map<string, Bucket>, lastSeen: map<string, real>) {

    /** What every operation keeps: one time stamp per bucket and between 0 and `burst` tokens in it. */
    ghost predicate Valid() {
      && burst >= 1
      && buckets.Keys == lastSeen.Keys
      && forall ip :: ip in buckets ==>
        && lastSeen[ip] == buckets[ip].last
        && buckets[ip].maxBurst == burst
        && 0.0 <= buckets[ip].tokens <= burst as real
    }
  }

  function Min(x: real, y: real): real {
    if x < y then x else y
  }

  /** What accrues at `rate` over `span`. Kept as a named product: the proofs below need only the
      three laws that follow. */
  function Scaled(span: real, rate: real): real {
    span * rate
  }

  lemma ScaledSum(x: real, y: real, rate: real)
    ensures Scaled(x + y, rate) == Scaled(x, rate) + Scaled(y, rate)
  {
  }

  lemma ScaledGrows(x: real, y: real, rate: real)
    requires rate > 0.0
    ensures Scaled(0.0, rate) == 0.0
    ensures x <= y ==> Scaled(x, rate) <= Scaled(y, rate)
    ensures x < y ==> Scaled(x, rate) < Scaled(y, rate)
  {
    if x < y {
      assert (y - x) * rate > 0.0;
      ScaledSum(x, y - x, rate);
    }
  }

  lemma ScaledQuotient(total: real, rate: real)
    requires rate > 0.0
    ensures Scaled(total / rate, rate) == total
  {
  }

  function Refilled(l: Limiter, b: Bucket, now: real): real {
    Min(b.tokens + Scaled(now - b.last, l.rps), b.maxBurst as real)
  }

  /** Whether a request is let through. */
  predicate Grants(l: Limiter, ip: string, now: real) {
    ip !in l.buckets || Refilled(l, l.buckets[ip], now) >= 1.0
  }

  /** The limiter after a request of `ip` at `now`. The request that creates a bucket pays nothing. */
  function Allowed(l: Limiter, ip: string, now: real): Limiter {
    var b :=
      if ip !in l.buckets then Bucket(l.burst as real, now, l.burst)
      else
        var full := Refilled(l, l.buckets[ip], now);
        Bucket(if full >= 1.0 then full - 1.0 else full, now, l.buckets[ip].maxBurst);
    l.(buckets := l.buckets[ip := b], lastSeen := l.lastSeen[ip := now])
  }

  predicate Stale(l: Limiter, stale: real, ip: string, now: real) {
    ip in l.lastSeen && l.lastSeen[ip] < now - stale
  }

  /** The limiter after the sweeper has dropped every bucket idle for longer than `stale`. */
  function Swept(l: Limiter, stale: real, now: real): Limiter {
    l.(buckets := map ip | ip in l.buckets && !Stale(l, stale, ip, now) :: l.buckets[ip],
       lastSeen := map ip | ip in l.lastSeen && !Stale(l, stale, ip, now) :: l.lastSeen[ip])
  }

  class RateLimiter {
    const rps: real
    const burst: int
    var buckets: map<string, Bucket>
    var lastSeen: map<string, real>

    function State(): Limiter
      reads this
    {
      Limiter(rps, burst, buckets, lastSeen)
    }

    constructor (rps: real, burst: int)
      ensures State() == Limiter(rps, if burst < 1 then 1 else burst, map[], map[])
      ensures State().Valid()
    {
      this.rps := rps;
      this.burst := if burst < 1 then 1 else burst;
      buckets, lastSeen := map[], map[];
    }

    /** A disabled limiter lets everything through untouched. */
    method Handle(ip: string, now: real) returns (pass: bool)
      modifies this
      ensures rps <= 0.0 ==> pass && State() == old(State())
      ensures rps > 0.0 ==> pass == Grants(old(State()), ip, now) && State() == Allowed(old(State()), ip, now)
    {
      if rps <= 0.0 {
        return true;
      }
      pass := Allow(ip, now);
    }

    method Allow(ip: string, now: real) returns (ok: bool)
      modifies this
      ensures ok == Grants(old(State()), ip, now)
      ensures State() == Allowed(old(State()), ip, now)
    {
      hide Scaled;
      if ip !in buckets {
        buckets := buckets[ip := Bucket(burst as real, now, burst)];
        lastSeen := lastSeen[ip := now];
        return true;
      }
      var b := buckets[ip];
      var elapsed := now - b.last;
      b := b.(tokens := b.tokens + Scaled(elapsed, rps));
      if b.tokens > b.maxBurst as real {
        b := b.(tokens := b.maxBurst as real);
      }
      b := b.(last := now);
      ok := b.tokens >= 1.0;
      if ok {
        b := b.(tokens := b.tokens - 1.0);
      }
      buckets := buckets[ip := b];
      lastSeen := lastSeen[ip := now];
    }

    /** One tick of the sweeper. */
    method Sweep(stale: real, now: real)
      requires State().Valid()
      modifies this
      ensures State() == Swept(old(State()), stale, now)
    {
      var cutoff := now - stale;
      var pending := lastSeen.Keys;
      while pending != {}
        invariant pending <= old(lastSeen).Keys
        invariant forall ip :: ip in lastSeen <==>
          ip in old(lastSeen) && (ip in pending || !Stale(old(State()), stale, ip, now))
        invariant forall ip :: ip in buckets <==>
          ip in old(buckets) && (ip in pending || !Stale(old(State()), stale, ip, now))
        invariant forall ip :: ip in lastSeen ==> lastSeen[ip] == old(lastSeen)[ip]
        invariant forall ip :: ip in buckets ==> buckets[ip] == old(buckets)[ip]
        decreases pending
      {
        var ip :| ip in pending;
        pending := pending - {ip};
        if lastSeen[ip] < cutoff {
          buckets := buckets - {ip};
          lastSeen := lastSeen - {ip};
        }
      }
    }
  }

  // ---- runs ----

  datatype Event = Request(ip: string, at: real) | Tick(at: real)

  function After(l: Limiter, stale: real, e: Event): (next: Limiter)
    ensures next.rps == l.rps && next.burst == l.burst
  {
    match e
    case Request(ip, at) => Allowed(l, ip, at)
    case Tick(at) => Swept(l, stale, at)
  }

  function Final(l: Limiter, stale: real, es: seq<Event>): (end: Limiter)
    ensures end.rps == l.rps && end.burst == l.burst
    decreases |es|
  {
    if es == [] then l else Final(After(l, stale, es[0]), stale, es[1..])
  }

  /** The clock does not run backwards, and every bucket was last touched before the run. */
  ghost predicate Timed(l: Limiter, from: real, es: seq<Event>, to: real) {
    && from <= to
    && (forall ip :: ip in l.lastSeen ==> l.lastSeen[ip] <= from)
    && Ordered(from, es, to)
  }

  predicate Ordered(from: real, es: seq<Event>, to: real)
    decreases |es|
  {
    if es == [] then from <= to else from <= es[0].at && Ordered(es[0].at, es[1..], to)
  }

  predicate GrantedBy(l: Limiter, e: Event, ip: string) {
    e.Request? && e.ip == ip && Grants(l, ip, e.at)
  }

  predicate CreatedBy(l: Limiter, e: Event, ip: string) {
    e.Request? && e.ip == ip && ip !in l.buckets
  }

  predicate EvictedBy(l: Limiter, stale: real, e: Event, ip: string) {
    e.Tick? && ip in l.buckets && Stale(l, stale, ip, e.at)
  }

  /** Requests of `ip` let through during the run. */
  function GrantCount(l: Limiter, stale: real, es: seq<Event>, ip: string): nat
    decreases |es|
  {
    if es == [] then 0
    else
      (if GrantedBy(l, es[0], ip) then 1 else 0)
      + GrantCount(After(l, stale, es[0]), stale, es[1..], ip)
  }

  /** Times the sweeper dropped the bucket of `ip`. */
  function EvictionCount(l: Limiter, stale: real, es: seq<Event>, ip: string): nat
    decreases |es|
  {
    if es == [] then 0
    else
      (if EvictedBy(l, stale, es[0], ip) then 1 else 0)
      + EvictionCount(After(l, stale, es[0]), stale, es[1..], ip)
  }

  /** Times a bucket was made for `ip`. */
  function CreationCount(l: Limiter, stale: real, es: seq<Event>, ip: string): nat
    decreases |es|
  {
    if es == [] then 0
    else
      (if CreatedBy(l, es[0], ip) then 1 else 0)
      + CreationCount(After(l, stale, es[0]), stale, es[1..], ip)
  }

  lemma StepKeepsValid(l: Limiter, stale: real, e: Event, from: real)
    requires l.Valid() && l.rps > 0.0
    requires from <= e.at && forall ip :: ip in l.lastSeen ==> l.lastSeen[ip] <= from
    ensures After(l, stale, e).Valid()
    ensures forall ip :: ip in After(l, stale, e).lastSeen ==> After(l, stale, e).lastSeen[ip] <= e.at
  {
    if e.Request? && e.ip in l.buckets {
      var b := l.buckets[e.ip];
      assert l.lastSeen[e.ip] <= from;
      ScaledGrows(0.0, e.at - b.last, l.rps);
    }
    hide Scaled;
  }

  /** Over every run: the limiter stays valid. */
  lemma {:induction false} RunKeepsValid(l: Limiter, stale: real, from: real, es: seq<Event>, to: real)
    requires l.Valid() && l.rps > 0.0 && Timed(l, from, es, to)
    ensures Final(l, stale, es).Valid()
    ensures Timed(Final(l, stale, es), to, [], to)
    decreases |es|
  {
    if es != [] {
      StepKeepsValid(l, stale, es[0], from);
      OrderedSpan(es[0].at, es[1..], to);
      RunKeepsValid(After(l, stale, es[0]), stale, es[0].at, es[1..], to);
    }
  }

  lemma {:induction false} OrderedSpan(from: real, es: seq<Event>, to: real)
    requires Ordered(from, es, to)
    ensures from <= to
    decreases |es|
  {
    if es != [] {
      OrderedSpan(es[0].at, es[1..], to);
    }
  }

  // ---- the bound ----

  /** The tokens `ip` could spend at `now`: those in its bucket once refilled, or a full bucket. */
  function Credit(l: Limiter, ip: string, now: real): real {
    if ip in l.buckets then Refilled(l, l.buckets[ip], now) else l.burst as real
  }

  /** The tokens an evicted bucket may gain by being made anew: none when an idle bucket refills
      before it goes stale. */
  function Windfall(l: Limiter, stale: real): real {
    var short := l.burst as real - Scaled(stale, l.rps);
    if short > 0.0 then short else 0.0
  }

  function OneIf(b: bool): real {
    if b then 1.0 else 0.0
  }

  lemma CreditGrows(l: Limiter, ip: string, from: real, to: real)
    requires l.rps > 0.0 && from <= to
    ensures Credit(l, ip, to) <= Credit(l, ip, from) + Scaled(to - from, l.rps)
  {
    hide Scaled;
    ScaledGrows(0.0, to - from, l.rps);
    if ip in l.buckets {
      var idle := from - l.buckets[ip].last;
      ScaledSum(idle, to - from, l.rps);
      assert idle + (to - from) == to - l.buckets[ip].last;
    }
  }

  lemma CreditAtOnce(l: Limiter, ip: string)
    requires l.rps > 0.0
    requires ip in l.buckets && l.buckets[ip].tokens <= l.buckets[ip].maxBurst as real
    ensures Credit(l, ip, l.buckets[ip].last) == l.buckets[ip].tokens
  {
    hide Scaled;
    var b := l.buckets[ip];
    ScaledGrows(0.0, 0.0, l.rps);
    assert b.last - b.last == 0.0;
  }

  /** A request is paid for by the credit, unless it makes the bucket. */
  lemma RequestPays(l: Limiter, ip: string, now: real)
    requires l.Valid() && l.rps > 0.0
    ensures Credit(Allowed(l, ip, now), ip, now) + OneIf(Grants(l, ip, now))
      == Credit(l, ip, now) + OneIf(ip !in l.buckets)
  {
    hide Scaled;
    CreditAtOnce(Allowed(l, ip, now), ip);
  }

  /** Sweeping costs credit nothing, unless buckets go stale before they are full again. */
  lemma SweepPays(l: Limiter, stale: real, ip: string, now: real)
    requires l.Valid() && l.rps > 0.0
    ensures Credit(Swept(l, stale, now), ip, now)
      <= Credit(l, ip, now) + (if ip in l.buckets && Stale(l, stale, ip, now) then Windfall(l, stale) else 0.0)
  {
    hide Scaled;
    if ip in l.buckets && Stale(l, stale, ip, now) {
      ScaledGrows(stale, now - l.buckets[ip].last, l.rps);
    }
  }

  /** One event pays for its grant out of the credit; only making a bucket and losing a stale one
      early come for free. */
  lemma StepPays(l: Limiter, stale: real, e: Event, ip: string)
    requires l.Valid() && l.rps > 0.0
    ensures OneIf(GrantedBy(l, e, ip)) + Credit(After(l, stale, e), ip, e.at)
      <= Credit(l, ip, e.at) + OneIf(CreatedBy(l, e, ip))
         + (if EvictedBy(l, stale, e, ip) then Windfall(l, stale) else 0.0)
  {
    hide Scaled;
    if e.Tick? {
      SweepPays(l, stale, ip, e.at);
    } else if e.ip == ip {
      RequestPays(l, ip, e.at);
    }
  }

  /** What all the evictions of a run may have gained `ip`. */
  function EvictionGain(l: Limiter, stale: real, es: seq<Event>, ip: string): real
    decreases |es|
  {
    if es == [] then 0.0
    else
      (if EvictedBy(l, stale, es[0], ip) then Windfall(l, stale) else 0.0)
      + EvictionGain(After(l, stale, es[0]), stale, es[1..], ip)
  }

  lemma {:induction false} EvictionGainIsCounted(l: Limiter, stale: real, es: seq<Event>, ip: string)
    ensures EvictionGain(l, stale, es, ip) == Scaled(EvictionCount(l, stale, es, ip) as real, Windfall(l, stale))
    decreases |es|
  {
    if es != [] {
      var next := After(l, stale, es[0]);
      EvictionGainIsCounted(next, stale, es[1..], ip);
      assert Windfall(next, stale) == Windfall(l, stale);
      hide Scaled, After, Windfall, EvictedBy;
      ScaledSum(EvictionCount(next, stale, es[1..], ip) as real, 1.0, Windfall(l, stale));
      ScaledOnce(Windfall(l, stale));
    } else {
      assert Scaled(0.0, Windfall(l, stale)) == 0.0;
    }
  }

  lemma ScaledOnce(rate: real)
    ensures Scaled(1.0, rate) == rate
  {
  }

  lemma {:induction false} CreditPaysForGrants(l: Limiter, stale: real, from: real, es: seq<Event>, to: real, ip: string)
    requires l.Valid() && l.rps > 0.0 && Timed(l, from, es, to)
    ensures GrantCount(l, stale, es, ip) as real + Credit(Final(l, stale, es), ip, to)
      <= Credit(l, ip, from) + Scaled(to - from, l.rps) + CreationCount(l, stale, es, ip) as real
         + EvictionGain(l, stale, es, ip)
    decreases |es|
  {
    if es == [] {
      hide Scaled, Credit;
      CreditGrows(l, ip, from, to);
    } else {
      hide Scaled, Credit, After, Windfall, Limiter.Valid, GrantedBy, CreatedBy, EvictedBy;
      var e, next := es[0], After(l, stale, es[0]);
      StepKeepsValid(l, stale, e, from);
      OrderedSpan(e.at, es[1..], to);
      CreditGrows(l, ip, from, e.at);
      StepPays(l, stale, e, ip);
      CreditPaysForGrants(next, stale, e.at, es[1..], to, ip);
      ScaledSum(e.at - from, to - e.at, l.rps);
      assert e.at - from + (to - e.at) == to - from;
    }
  }

  /** The bound in full: no assumption on how `stale` relates to the refill time. */
  lemma GrantBoundWithWindfall(l: Limiter, stale: real, from: real, es: seq<Event>, to: real, ip: string)
    requires l.Valid() && l.rps > 0.0 && Timed(l, from, es, to)
    ensures GrantCount(l, stale, es, ip) as real
      <= l.burst as real + Scaled(to - from, l.rps) + CreationCount(l, stale, es, ip) as real
         + Scaled(EvictionCount(l, stale, es, ip) as real, Windfall(l, stale))
  {
    hide Scaled, Credit, Final, Windfall, GrantCount, CreationCount, EvictionCount, EvictionGain;
    CreditPaysForGrants(l, stale, from, es, to, ip);
    EvictionGainIsCounted(l, stale, es, ip);
    RunKeepsValid(l, stale, from, es, to);
    CreditNotNegative(Final(l, stale, es), ip, to);
    CreditNotNegative(l, ip, from);
  }

  lemma {:induction false} CreationsFollowEvictions(l: Limiter, stale: real, es: seq<Event>, ip: string)
    requires l.Valid() && l.rps > 0.0
    requires exists from, to :: Timed(l, from, es, to)
    ensures CreationCount(l, stale, es, ip) <= EvictionCount(l, stale, es, ip) + (if ip in l.buckets then 0 else 1)
    decreases |es|
  {
    if es != [] {
      var from, to :| Timed(l, from, es, to);
      StepKeepsValid(l, stale, es[0], from);
      OrderedSpan(es[0].at, es[1..], to);
      assert Timed(After(l, stale, es[0]), es[0].at, es[1..], to);
      CreationsFollowEvictions(After(l, stale, es[0]), stale, es[1..], ip);
    }
  }

  lemma NoWindfall(l: Limiter, stale: real, count: real)
    requires Scaled(stale, l.rps) >= l.burst as real
    ensures Scaled(count, Windfall(l, stale)) == 0.0
  {
    assert Windfall(l, stale) == 0.0;
  }

  /** In any stretch of any run, one client is let through at most `burst + 1` times, plus the
      refill rate times the length of the stretch, plus once for each time its bucket was swept,
      provided an idle bucket is full again before it goes stale. */
  lemma GrantBound(l: Limiter, stale: real, from: real, es: seq<Event>, to: real, ip: string)
    requires l.Valid() && l.rps > 0.0 && Timed(l, from, es, to)
    requires Scaled(stale, l.rps) >= l.burst as real
    ensures GrantCount(l, stale, es, ip) as real
      <= l.burst as real + 1.0 + Scaled(to - from, l.rps) + EvictionCount(l, stale, es, ip) as real
  {
    hide Scaled, Windfall, GrantCount, CreationCount, EvictionCount;
    GrantBoundWithWindfall(l, stale, from, es, to, ip);
    CreationsFollowEvictions(l, stale, es, ip);
    NoWindfall(l, stale, EvictionCount(l, stale, es, ip) as real);
  }

  lemma CreditNotNegative(l: Limiter, ip: string, now: real)
    requires l.Valid() && l.rps > 0.0
    requires ip in l.lastSeen ==> l.lastSeen[ip] <= now
    ensures 0.0 <= Credit(l, ip, now) <= l.burst as real
  {
    hide Scaled;
    if ip in l.buckets {
      ScaledGrows(0.0, now - l.buckets[ip].last, l.rps);
    }
  }

  /** The moment `ip` last had its bucket made or used, but never longer ago than `stale`. */
  function Base(l: Limiter, stale: real, ip: string, now: real): real {
    if ip in l.lastSeen && l.lastSeen[ip] > now - stale then l.lastSeen[ip] else now - stale
  }

  lemma BaseAdvances(l: Limiter, stale: real, e: Event, ip: string, from: real)
    requires l.Valid() && stale > 0.0 && from <= e.at
    requires forall x :: x in l.lastSeen ==> l.lastSeen[x] <= from
    ensures Base(After(l, stale, e), stale, ip, e.at)
      >= Base(l, stale, ip, from) + (if CreatedBy(l, e, ip) then stale else 0.0)
  {
  }

  /** The sweeper's patience summed over the bucket creations of `ip`. */
  function CreationSpan(l: Limiter, stale: real, es: seq<Event>, ip: string): real
    decreases |es|
  {
    if es == [] then 0.0
    else (if CreatedBy(l, es[0], ip) then stale else 0.0) + CreationSpan(After(l, stale, es[0]), stale, es[1..], ip)
  }

  lemma {:induction false} CreationSpanIsCounted(l: Limiter, stale: real, es: seq<Event>, ip: string)
    requires stale > 0.0
    ensures CreationSpan(l, stale, es, ip) == Scaled(CreationCount(l, stale, es, ip) as real, stale)
    decreases |es|
  {
    hide Scaled, After, CreatedBy;
    ScaledGrows(0.0, 0.0, stale);
    ScaledOnce(stale);
    if es != [] {
      var next := After(l, stale, es[0]);
      CreationSpanIsCounted(next, stale, es[1..], ip);
      ScaledSum(CreationCount(next, stale, es[1..], ip) as real, 1.0, stale);
    }
  }

  /** The j-th event of the run makes a bucket for `ip`. */
  predicate CreatesAt(l: Limiter, stale: real, es: seq<Event>, ip: string, j: nat)
    requires j < |es|
    decreases j
  {
    if j == 0 then CreatedBy(l, es[0], ip) else CreatesAt(After(l, stale, es[0]), stale, es[1..], ip, j - 1)
  }

  /** While a client was last seen at `seen` or later, a new bucket for it takes an eviction first,
      and that takes longer than `stale`. */
  lemma {:induction false} CreationTakesEviction(l: Limiter, stale: real, from: real, es: seq<Event>, to: real, ip: string, seen: real, j: nat)
    requires l.Valid() && l.rps > 0.0 && stale > 0.0 && Timed(l, from, es, to) && j < |es|
    requires (ip in l.lastSeen && seen <= l.lastSeen[ip]) || from > seen + stale
    requires CreatesAt(l, stale, es, ip, j)
    ensures es[j].at > seen + stale
    decreases j
  {
    hide Scaled;
    var e, next := es[0], After(l, stale, es[0]);
    if j > 0 {
      StepKeepsValid(l, stale, e, from);
      OrderedSpan(e.at, es[1..], to);
      SeenOrEvicted(l, stale, e, from, ip, seen);
      CreationTakesEviction(next, stale, e.at, es[1..], to, ip, seen, j - 1);
    }
  }

  lemma SeenOrEvicted(l: Limiter, stale: real, e: Event, from: real, ip: string, seen: real)
    requires l.Valid() && from <= e.at && forall x :: x in l.lastSeen ==> l.lastSeen[x] <= from
    requires stale > 0.0 && ((ip in l.lastSeen && seen <= l.lastSeen[ip]) || from > seen + stale)
    ensures var next := After(l, stale, e);
      (ip in next.lastSeen && seen <= next.lastSeen[ip]) || e.at > seen + stale
  {
    hide Scaled;
  }

  /** Two bucket creations of one client are more than `stale` apart. */
  lemma {:induction false} CreationsAreSpaced(l: Limiter, stale: real, from: real, es: seq<Event>, to: real, ip: string, i: nat, j: nat)
    requires l.Valid() && l.rps > 0.0 && stale > 0.0 && Timed(l, from, es, to)
    requires i < j < |es| && CreatesAt(l, stale, es, ip, i) && CreatesAt(l, stale, es, ip, j)
    ensures es[j].at - es[i].at > stale
    decreases i
  {
    hide Scaled;
    var e, next := es[0], After(l, stale, es[0]);
    StepKeepsValid(l, stale, e, from);
    OrderedSpan(e.at, es[1..], to);
    if i == 0 {
      CreationTakesEviction(next, stale, e.at, es[1..], to, ip, e.at, j - 1);
    } else {
      CreationsAreSpaced(next, stale, e.at, es[1..], to, ip, i - 1, j - 1);
    }
  }

  /** So the creations of a run take up their share of its length. */
  lemma {:induction false} CreationsTakeTime(l: Limiter, stale: real, from: real, es: seq<Event>, to: real, ip: string)
    requires l.Valid() && l.rps > 0.0 && stale > 0.0 && Timed(l, from, es, to)
    ensures CreationSpan(l, stale, es, ip) <= to - Base(l, stale, ip, from)
    decreases |es|
  {
    if es != [] {
      var e, next := es[0], After(l, stale, es[0]);
      StepKeepsValid(l, stale, e, from);
      OrderedSpan(e.at, es[1..], to);
      CreationsTakeTime(next, stale, e.at, es[1..], to, ip);
      BaseAdvances(l, stale, e, ip, from);
      hide Base, After, CreatedBy;
    }
  }

  lemma CreationsFewPerStretch(l: Limiter, stale: real, from: real, es: seq<Event>, to: real, ip: string)
    requires l.Valid() && l.rps > 0.0 && stale > 0.0 && Timed(l, from, es, to)
    ensures CreationCount(l, stale, es, ip) as real <= 1.0 + (to - from) / stale
  {
    hide Scaled, CreationCount, CreationSpan;
    CreationsTakeTime(l, stale, from, es, to, ip);
    CreationSpanIsCounted(l, stale, es, ip);
    var quotient := (to - from) / stale;
    ScaledQuotient(to - from, stale);
    ScaledSum(quotient, 1.0, stale);
    ScaledOnce(stale);
    ScaledGrows(quotient + 1.0, CreationCount(l, stale, es, ip) as real, stale);
  }

  /** The bound without counting evictions: being swept and starting afresh gains at most one
      request per stale period. */
  lemma GrantBoundPerStretch(l: Limiter, stale: real, from: real, es: seq<Event>, to: real, ip: string)
    requires l.Valid() && l.rps > 0.0 && stale > 0.0 && Timed(l, from, es, to)
    requires Scaled(stale, l.rps) >= l.burst as real
    ensures GrantCount(l, stale, es, ip) as real
      <= l.burst as real + 1.0 + Scaled(to - from, l.rps) + (to - from) / stale
  {
    hide Scaled, Windfall, GrantCount, CreationCount, EvictionCount;
    GrantBoundWithWindfall(l, stale, from, es, to, ip);
    CreationsFewPerStretch(l, stale, from, es, to, ip);
    NoWindfall(l, stale, EvictionCount(l, stale, es, ip) as real);
  }

  // ---- what a well-behaved client is promised ----

  /** The requests of `ip` are at least `gap` apart, the first one `gap` after `last` if that is given. */
  predicate Spaced(es: seq<Event>, ip: string, gap: real, hasLast: bool, last: real) {
    if es == [] then true
    else if es[0].Request? && es[0].ip == ip then
      (hasLast ==> es[0].at >= last + gap) && Spaced(es[1..], ip, gap, true, es[0].at)
    else Spaced(es[1..], ip, gap, hasLast, last)
  }

  function RequestCount(es: seq<Event>, ip: string): nat {
    if es == [] then 0
    else (if es[0].Request? && es[0].ip == ip then 1 else 0) + RequestCount(es[1..], ip)
  }

  /** A client that waits `1 / rps` between its requests is never refused, whatever the other
      clients and the sweeper do. */
  lemma {:induction false} SpacedNeverRefused(l: Limiter, stale: real, from: real, es: seq<Event>, to: real,
                                              ip: string, hasLast: bool, last: real)
    requires l.Valid() && l.rps > 0.0 && Timed(l, from, es, to)
    requires ip in l.lastSeen ==> hasLast && l.lastSeen[ip] == last
    requires Spaced(es, ip, 1.0 / l.rps, hasLast, last)
    ensures GrantCount(l, stale, es, ip) == RequestCount(es, ip)
    decreases |es|
  {
    if es != [] {
      var e, next := es[0], After(l, stale, es[0]);
      StepKeepsValid(l, stale, e, from);
      OrderedSpan(e.at, es[1..], to);
      hide Grants, Refilled;
      if e.Request? && e.ip == ip {
        PatientIsGranted(l, ip, e.at);
        SpacedNeverRefused(next, stale, e.at, es[1..], to, ip, true, e.at);
      } else {
        SpacedNeverRefused(next, stale, e.at, es[1..], to, ip, hasLast, last);
      }
    }
  }

  lemma PatientIsGranted(l: Limiter, ip: string, now: real)
    requires l.Valid() && l.rps > 0.0
    requires ip in l.lastSeen ==> now >= l.lastSeen[ip] + 1.0 / l.rps
    ensures Grants(l, ip, now)
  {
    hide Scaled;
    if ip in l.buckets {
      ScaledQuotient(1.0, l.rps);
      ScaledGrows(1.0 / l.rps, now - l.buckets[ip].last, l.rps);
    }
  }

  /** The part of a run that concerns `ip`: its own requests and the ticks. */
  function Concerning(es: seq<Event>, ip: string): seq<Event> {
    if es == [] then []
    else (if es[0].Tick? || es[0].ip == ip then [es[0]] else []) + Concerning(es[1..], ip)
  }

  ghost predicate SameFor(a: Limiter, b: Limiter, ip: string) {
    && a.rps == b.rps && a.burst == b.burst
    && (ip in a.buckets <==> ip in b.buckets) && (ip in a.lastSeen <==> ip in b.lastSeen)
    && (ip in a.buckets ==> a.buckets[ip] == b.buckets[ip])
    && (ip in a.lastSeen ==> a.lastSeen[ip] == b.lastSeen[ip])
  }

  lemma StepIsolated(a: Limiter, b: Limiter, stale: real, e: Event, ip: string)
    requires SameFor(a, b, ip)
    ensures e.Tick? || e.ip == ip ==> SameFor(After(a, stale, e), After(b, stale, e), ip)
    ensures e.Request? && e.ip != ip ==> SameFor(After(a, stale, e), b, ip)
    ensures GrantedBy(a, e, ip) == GrantedBy(b, e, ip)
  {
    hide Scaled;
  }

  /** Clients do not affect each other: deleting everyone else's requests from the run changes
      neither what `ip` is granted nor its bucket. */
  lemma {:induction false} ClientsAreIsolated(a: Limiter, b: Limiter, stale: real, es: seq<Event>, ip: string)
    requires SameFor(a, b, ip)
    ensures GrantCount(a, stale, es, ip) == GrantCount(b, stale, Concerning(es, ip), ip)
    ensures SameFor(Final(a, stale, es), Final(b, stale, Concerning(es, ip)), ip)
    decreases |es|
  {
    if es != [] {
      StepIsolated(a, b, stale, es[0], ip);
      if es[0].Tick? || es[0].ip == ip {
        hide After, SameFor, GrantedBy;
        ClientsAreIsolated(After(a, stale, es[0]), After(b, stale, es[0]), stale, es[1..], ip);
        assert Concerning(es, ip)[1..] == Concerning(es[1..], ip);
      } else {
        assert !GrantedBy(a, es[0], ip);
        hide After, SameFor, GrantedBy;
        ClientsAreIsolated(After(a, stale, es[0]), b, stale, es[1..], ip);
        assert Concerning(es, ip) == Concerning(es[1..], ip);
      }
    }
  }

  // ---- exactly what a bucket is worth ----

  /** The tokens left of `ip` and the refill since its last request. */
  function Held(l: Limiter, ip: string, at: real): real
    requires ip in l.buckets
  {
    l.buckets[ip].tokens + Scaled(at - l.buckets[ip].last, l.rps)
  }

  /** What a request finds beyond `burst` tokens is lost. */
  function Overflow(l: Limiter, e: Event, ip: string): real {
    if e.Request? && e.ip == ip && ip in l.buckets && Held(l, ip, e.at) > l.burst as real
    then Held(l, ip, e.at) - l.burst as real
    else 0.0
  }

  function OverflowSum(l: Limiter, stale: real, es: seq<Event>, ip: string): real
    decreases |es|
  {
    if es == [] then 0.0 else Overflow(l, es[0], ip) + OverflowSum(After(l, stale, es[0]), stale, es[1..], ip)
  }

  lemma StepConserves(l: Limiter, stale: real, e: Event, ip: string)
    requires l.Valid() && ip in l.buckets && !EvictedBy(l, stale, e, ip)
    ensures ip in After(l, stale, e).buckets
    ensures var b, c := l.buckets[ip], After(l, stale, e).buckets[ip];
      c.tokens + OneIf(GrantedBy(l, e, ip)) + Overflow(l, e, ip) == b.tokens + Scaled(c.last - b.last, l.rps)
  {
    assert Scaled(0.0, l.rps) == 0.0;
    hide Scaled;
  }

  /** No token is lost or made: while its bucket is not swept, what a client is granted is exactly what
      the bucket held, plus the refill up to its last request, minus what is left and what ran over. */
  lemma {:induction false} TokensAreConserved(l: Limiter, stale: real, from: real, es: seq<Event>, to: real, ip: string)
    requires l.Valid() && l.rps > 0.0 && Timed(l, from, es, to)
    requires ip in l.buckets && EvictionCount(l, stale, es, ip) == 0
    ensures ip in Final(l, stale, es).buckets
    ensures var b, c := l.buckets[ip], Final(l, stale, es).buckets[ip];
      GrantCount(l, stale, es, ip) as real
        == b.tokens + Scaled(c.last - b.last, l.rps) - c.tokens - OverflowSum(l, stale, es, ip)
    decreases |es|
  {
    if es == [] {
      assert Scaled(0.0, l.rps) == 0.0;
    } else {
      hide Scaled, After, GrantedBy, Overflow, EvictedBy;
      var e, next := es[0], After(l, stale, es[0]);
      StepKeepsValid(l, stale, e, from);
      OrderedSpan(e.at, es[1..], to);
      StepConserves(l, stale, e, ip);
      TokensAreConserved(next, stale, e.at, es[1..], to, ip);
      var b, c, d := l.buckets[ip], next.buckets[ip], Final(l, stale, es).buckets[ip];
      ScaledSum(c.last - b.last, d.last - c.last, l.rps);
      assert c.last - b.last + (d.last - c.last) == d.last - b.last;
    }
  }

  function Repeated(ip: string, at: real, n: nat): seq<Event> {
    if n == 0 then [] else [Request(ip, at)] + Repeated(ip, at, n - 1)
  }

  /** How many of `n` requests the whole tokens of `held` pay for. */
  function AtMostWhole(n: nat, held: real): int {
    if n <= held.Floor then n else held.Floor
  }

  lemma OnePaid(n: nat, held: real)
    requires held >= 0.0
    ensures AtMostWhole(n + 1, held) == if held >= 1.0 then 1 + AtMostWhole(n, held - 1.0) else 0
    ensures held < 1.0 ==> AtMostWhole(n, held) == 0
  {
    assert held >= 1.0 ==> (held - 1.0).Floor == held.Floor - 1;
  }

  lemma NonePaid(held: real)
    requires held >= 0.0
    ensures AtMostWhole(0, held) == 0
  {
  }

  lemma AllowedHolds(l: Limiter, ip: string, at: real)
    requires l.Valid() && ip in l.buckets && Held(l, ip, at) >= 0.0
    ensures var next, full := Allowed(l, ip, at), Refilled(l, l.buckets[ip], at);
      next.Valid() && ip in next.buckets && Held(next, ip, at) == if Grants(l, ip, at) then full - 1.0 else full
  {
    var next := Allowed(l, ip, at);
    assert Scaled(at - next.buckets[ip].last, l.rps) == 0.0;
    hide Scaled;
  }

  lemma {:induction false} BurstAtOnce(l: Limiter, stale: real, ip: string, at: real, n: nat)
    requires l.Valid() && ip in l.buckets && Held(l, ip, at) >= 0.0
    ensures GrantCount(l, stale, Repeated(ip, at, n), ip)
      == AtMostWhole(n, if Held(l, ip, at) > l.burst as real then l.burst as real else Held(l, ip, at))
    decreases n
  {
    var full := Refilled(l, l.buckets[ip], at);
    assert full == if Held(l, ip, at) > l.burst as real then l.burst as real else Held(l, ip, at);
    AllowedHolds(l, ip, at);
    hide Scaled, AtMostWhole, Refilled, Allowed, Held, Limiter.Valid;
    if n > 0 {
      assert Repeated(ip, at, n)[1..] == Repeated(ip, at, n - 1);
      BurstAtOnce(Allowed(l, ip, at), stale, ip, at, n - 1);
      OnePaid(n - 1, full);
    } else {
      NonePaid(full);
    }
  }

  lemma {:induction false} GrantsConcat(l: Limiter, stale: real, es: seq<Event>, fs: seq<Event>, ip: string)
    ensures GrantCount(l, stale, es + fs, ip) == GrantCount(l, stale, es, ip) + GrantCount(Final(l, stale, es), stale, fs, ip)
    decreases |es|
  {
    if es == [] {
      assert es + fs == fs;
    } else {
      assert (es + fs)[1..] == es[1..] + fs;
      GrantsConcat(After(l, stale, es[0]), stale, es[1..], fs, ip);
    }
  }

  lemma {:induction false} IdleKeepsBucket(l: Limiter, stale: real, es: seq<Event>, ip: string)
    requires ip in l.buckets && RequestCount(es, ip) == 0 && EvictionCount(l, stale, es, ip) == 0
    ensures ip in Final(l, stale, es).buckets && Final(l, stale, es).buckets[ip] == l.buckets[ip]
    ensures GrantCount(l, stale, es, ip) == 0
    decreases |es|
  {
    if es != [] {
      hide Refilled;
      IdleKeepsBucket(After(l, stale, es[0]), stale, es[1..], ip);
    }
  }

  /** A client that waits, whatever the others do, and then sends `n` requests at once is granted as
      many of them as there are whole tokens: those it had and the refill of the wait, at most `burst`. */
  lemma BurstAfterWait(l: Limiter, stale: real, from: real, es: seq<Event>, at: real, ip: string, n: nat)
    requires l.Valid() && l.rps > 0.0 && Timed(l, from, es, at)
    requires ip in l.buckets && RequestCount(es, ip) == 0 && EvictionCount(l, stale, es, ip) == 0
    ensures GrantCount(l, stale, es + Repeated(ip, at, n), ip)
      == AtMostWhole(n, if Held(l, ip, at) > l.burst as real then l.burst as real else Held(l, ip, at))
  {
    hide GrantCount, EvictionCount, RequestCount, Repeated, AtMostWhole, Scaled;
    GrantsConcat(l, stale, es, Repeated(ip, at, n), ip);
    IdleKeepsBucket(l, stale, es, ip);
    RunKeepsValid(l, stale, from, es, at);
    OrderedSpan(from, es, at);
    ScaledGrows(0.0, at - l.buckets[ip].last, l.rps);
    BurstAtOnce(Final(l, stale, es), stale, ip, at, n);
  }

  // ---- the free first request ----

  /** A new client gets exactly one request more than `burst` through at once, so the `+ 1` of
      the bound is reached. */
  lemma FreshClientBurst(l: Limiter, stale: real, ip: string, at: real, n: nat)
    requires l.Valid() && ip !in l.buckets
    ensures GrantCount(l, stale, Repeated(ip, at, n), ip) == if n < l.burst + 1 then n else l.burst + 1
  {
    if n > 0 {
      assert Repeated(ip, at, n)[1..] == Repeated(ip, at, n - 1);
      var next := Allowed(l, ip, at);
      assert Held(next, ip, at) == l.burst as real by {
        assert Scaled(at - at, l.rps) == 0.0;
      }
      hide Scaled, Held;
      BurstAtOnce(next, stale, ip, at, n - 1);
    }
  }

  /** A tick forgets exactly the clients last seen more than `stale` before it, and the others keep
      their buckets: a forgotten client has the burst of a new one, whatever it had left. */
  lemma IdleIsForgotten(l: Limiter, stale: real, tick: real, ip: string, at: real, n: nat)
    requires l.Valid() && ip in l.buckets
    ensures var next := After(l, stale, Tick(tick));
      && (ip in next.buckets <==> tick - l.buckets[ip].last <= stale)
      && (ip in next.buckets ==> next.buckets[ip] == l.buckets[ip])
    ensures tick - l.buckets[ip].last > stale ==>
      GrantCount(l, stale, [Tick(tick)] + Repeated(ip, at, n), ip) == if n < l.burst + 1 then n else l.burst + 1
  {
    var es := [Tick(tick)] + Repeated(ip, at, n);
    assert es[0] == Tick(tick) && es[1..] == Repeated(ip, at, n);
    if tick - l.buckets[ip].last > stale {
      FreshClientBurst(After(l, stale, Tick(tick)), stale, ip, at, n);
    }
  }
}
