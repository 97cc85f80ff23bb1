/**
 Token buckets: the per-connection limiter (internal/handler/handler.go:1650-1676) and
 the per-address limiter with its eviction sweep (internal/middleware/middleware.go:235-285).
 Times are seconds, tokens are exact reals.
 */
module Buckets {

  datatype Bucket = Bucket(tokens: real, last: real)

  /** Tokens earned over a stretch of time. */
  function Earned(elapsed: real, rate: real): real {
    elapsed * rate
  }

  lemma EarnedIs(elapsed: real, rate: real)
    ensures Earned(elapsed, rate) == rate * elapsed
  {
  }

  function Min(a: real, b: real): real {
    if a < b then a else b
  }

  lemma EarnedAdds(a: real, b: real, rate: real)
    ensures Earned(a, rate) + Earned(b, rate) == Earned(a + b, rate)
  {
  }

  lemma EarnedGrows(a: real, b: real, rate: real)
    requires a <= b && rate >= 0.0
    ensures Earned(a, rate) <= Earned(b, rate)
  {
    EarnedAdds(a, b - a, rate);
    EarnedPositive(b - a, rate);
  }

  lemma EarnedPositive(a: real, rate: real)
    requires a >= 0.0 && rate >= 0.0
    ensures Earned(a, rate) >= 0.0
  {
  }

  /** Tokens after the refill at `now`, before anything is taken. */
  function Refilled(b: Bucket, now: real, rate: real, burst: real): real {
    var t := b.tokens + Earned(now - b.last, rate);
    if t > burst then burst else t
  }

  predicate Allows(b: Bucket, now: real, rate: real, burst: real) {
    Refilled(b, now, rate, burst) >= 1.0
  }

  function Used(b: Bucket, now: real, rate: real, burst: real): Bucket {
    var t := Refilled(b, now, rate, burst);
    Bucket(if t >= 1.0 then t - 1.0 else t, now)
  }

  /** The level a call finds: what was left and what the rate has earned since, capped at the burst. */
  function Level(b: Bucket, now: real, rate: real, burst: real): real {
    Min(b.tokens + rate * (now - b.last), burst)
  }

  /** One call, written out. */
  lemma CallIs(b: Bucket, now: real, rate: real, burst: real)
    ensures var level := Min(b.tokens + rate * (now - b.last), burst);
      && Refilled(b, now, rate, burst) == level && (Allows(b, now, rate, burst) <==> level >= 1.0)
      && Used(b, now, rate, burst) == Bucket(if level >= 1.0 then level - 1.0 else level, now)
    ensures b.last == now && b.tokens == burst ==> Refilled(b, now, rate, burst) == burst
  {
    hide Earned;
    EarnedIs(now - b.last, rate);
    EarnedIs(0.0, rate);
  }

  lemma CallLevel(b: Bucket, now: real, rate: real, burst: real)
    ensures var level := Level(b, now, rate, burst);
      && Refilled(b, now, rate, burst) == level && (Allows(b, now, rate, burst) <==> level >= 1.0)
      && Used(b, now, rate, burst) == Bucket(if level >= 1.0 then level - 1.0 else level, now)
      && Min(b.tokens + Earned(now - b.last, rate), burst) == level
      && (b.last == now && b.tokens == burst ==> level == burst)
  {
    CallIs(b, now, rate, burst);
  }

  class TokenBucket {
    const rate: real
    const burst: real
    var tokens: real
    var last: real

    function State(): Bucket
      reads this
    {
      Bucket(tokens, last)
    }

    constructor (rate: real, burst: real, now: real)
      ensures State() == Bucket(burst, now) && this.rate == rate && this.burst == burst
    {
      this.rate, this.burst := rate, burst;
      tokens, last := burst, now;
    }

    method Allow(now: real) returns (allowed: bool)
      modifies this
      ensures allowed == Allows(old(State()), now, rate, burst)
      ensures State() == Used(old(State()), now, rate, burst)
      ensures var level := Min(old(tokens) + rate * (now - old(last)), burst);
        (allowed <==> level >= 1.0) && State() == Bucket(if allowed then level - 1.0 else level, now)
    {
      hide Earned, Refilled, Used, Allows;
      ghost var before := State();
      CallIs(before, now, rate, burst);
      var elapsed := now - last;
      EarnedIs(elapsed, rate);
      tokens := tokens + Earned(elapsed, rate);
      if tokens > burst { tokens := burst; }
      last := now;
      assert tokens == Refilled(before, now, rate, burst);
      allowed := tokens >= 1.0;
      if allowed { tokens := tokens - 1.0; }
    }
  }

  // ----- the rate bound -----------------------------------------------------------------

  ghost predicate Monotone(b: Bucket, times: seq<real>) {
    (times != [] ==> b.last <= times[0]) && forall i, j :: 0 <= i < j < |times| ==> times[i] <= times[j]
  }

  /** The bucket after calls at `times`. */
  function After(b: Bucket, times: seq<real>, rate: real, burst: real): Bucket
    decreases |times|
  {
    if times == [] then b else After(Used(b, times[0], rate, burst), times[1..], rate, burst)
  }

  /** How many of the calls at `times` are allowed. */
  function Allowed(b: Bucket, times: seq<real>, rate: real, burst: real): nat
    decreases |times|
  {
    if times == [] then 0
    else
      (if Allows(b, times[0], rate, burst) then 1 else 0) +
      Allowed(Used(b, times[0], rate, burst), times[1..], rate, burst)
  }

  ghost predicate Sane(b: Bucket, rate: real, burst: real) {
    0.0 <= b.tokens <= burst && rate >= 0.0
  }

  lemma UsedStaysSane(b: Bucket, now: real, rate: real, burst: real)
    requires Sane(b, rate, burst) && b.last <= now
    ensures Sane(Used(b, now, rate, burst), rate, burst)
    ensures 0.0 <= Refilled(b, now, rate, burst) <= burst
    ensures Refilled(b, now, rate, burst) <= b.tokens + Earned(now - b.last, rate)
  {
    EarnedPositive(now - b.last, rate);
  }

  lemma {:induction false} EarnedIsConserved(b: Bucket, times: seq<real>, rate: real, burst: real)
    requires Sane(b, rate, burst) && Monotone(b, times)
    ensures var e := After(b, times, rate, burst);
      Sane(e, rate, burst) && b.last <= e.last && e.last == (if times == [] then b.last else times[|times| - 1]) &&
      Allowed(b, times, rate, burst) as real + e.tokens <= b.tokens + Earned(e.last - b.last, rate)
    decreases |times|
  {
    if times == [] {
      EarnedPositive(0.0, rate);
    } else {
      var now := times[0];
      var u := Used(b, now, rate, burst);
      UsedStaysSane(b, now, rate, burst);
      EarnedIsConserved(u, times[1..], rate, burst);
      EarnedAdds(now - b.last, After(u, times[1..], rate, burst).last - now, rate);
    }
  }

  /** Conservation: what was let through and what is left came from the start and the refill. */
  lemma TokensAreConserved(b: Bucket, times: seq<real>, rate: real, burst: real)
    requires Sane(b, rate, burst) && Monotone(b, times)
    ensures var e := After(b, times, rate, burst);
      Sane(e, rate, burst) && e.last == (if times == [] then b.last else times[|times| - 1]) &&
      Allowed(b, times, rate, burst) as real + e.tokens <= b.tokens + rate * (e.last - b.last)
  {
    hide Earned;
    EarnedIsConserved(b, times, rate, burst);
    EarnedIs(After(b, times, rate, burst).last - b.last, rate);
  }

  lemma LevelFallsByCalls(b: Bucket, t: real, now: real, rate: real, burst: real)
    requires rate >= 0.0 && b.last <= t <= now
    ensures Refilled(Used(b, t, rate, burst), now, rate, burst) >=
      Refilled(b, now, rate, burst) - if Allows(b, t, rate, burst) then 1.0 else 0.0
    ensures Used(b, t, rate, burst).last == t
  {
    hide Earned;
    EarnedAdds(t - b.last, now - t, rate);
    assert (t - b.last) + (now - t) == now - b.last;
    EarnedPositive(now - t, rate);
  }

  lemma {:induction false} FullEnoughPasses(b: Bucket, times: seq<real>, now: real, rate: real, burst: real)
    requires rate >= 0.0 && Monotone(b, times + [now])
    requires Refilled(b, now, rate, burst) - Allowed(b, times, rate, burst) as real >= 1.0
    ensures Allows(After(b, times, rate, burst), now, rate, burst)
    decreases |times|
  {
    hide Earned, Refilled, Used;
    if times != [] {
      var t, u := times[0], Used(b, times[0], rate, burst);
      assert (times + [now])[0] == t && (times + [now])[|times|] == now;
      assert (times + [now])[1..] == times[1..] + [now];
      LevelFallsByCalls(b, t, now, rate, burst);
      RestIsMonotone(b, times + [now], rate, burst);
      FullEnoughPasses(u, times[1..], now, rate, burst);
    }
  }

  /**
   Nothing earned is lost: along any run, refused calls included, a call is let through
   whenever the level at its start plus what the rate has earned since, capped at the
   burst, less the calls let through since, is at least one.
   */
  lemma EarnedCallsPass(b: Bucket, times: seq<real>, now: real, rate: real, burst: real)
    requires rate >= 0.0 && Monotone(b, times + [now])
    requires Min(b.tokens + rate * (now - b.last), burst) - Allowed(b, times, rate, burst) as real >= 1.0
    ensures Allows(After(b, times, rate, burst), now, rate, burst)
  {
    hide Earned;
    EarnedIs(now - b.last, rate);
    FullEnoughPasses(b, times, now, rate, burst);
  }

  lemma RestIsMonotone(b: Bucket, times: seq<real>, rate: real, burst: real)
    requires Monotone(b, times) && times != []
    ensures Monotone(Used(b, times[0], rate, burst), times[1..])
  {
  }

  /**
   Whatever came before, calls within any window of length `span` are let through at
   most burst + rate * span times.
   */
  lemma WindowBound(b: Bucket, before: seq<real>, window: seq<real>, rate: real, burst: real, span: real)
    requires Sane(b, rate, burst) && Monotone(b, before + window) && window != []
    requires window[|window| - 1] - window[0] <= span
    ensures Allowed(After(b, before, rate, burst), window, rate, burst) as real <= burst + rate * span
  {
    hide Earned;
    EarnedIs(span, rate);
    MonotoneSplits(b, before, window);
    EarnedIsConserved(b, before, rate, burst);
    WindowFromFirst(After(b, before, rate, burst), window, rate, burst, span);
  }

  lemma MonotoneSplits(b: Bucket, before: seq<real>, window: seq<real>)
    requires Monotone(b, before + window) && window != []
    ensures Monotone(b, before)
    ensures (if before == [] then b.last else before[|before| - 1]) <= window[0]
    ensures forall i, j :: 0 <= i < j < |window| ==> window[i] <= window[j]
  {
    var all := before + window;
    assert all[|before|] == window[0];
    assert before != [] ==> all[0] == before[0] && all[|before| - 1] == before[|before| - 1];
    forall i, j | 0 <= i < j < |window| ensures window[i] <= window[j] {
      assert all[|before| + i] == window[i] && all[|before| + j] == window[j];
    }
    forall i, j | 0 <= i < j < |before| ensures before[i] <= before[j] {
      assert all[i] == before[i] && all[j] == before[j];
    }
  }

  lemma WindowFromFirst(s: Bucket, window: seq<real>, rate: real, burst: real, span: real)
    requires Sane(s, rate, burst) && Monotone(s, window) && window != []
    requires window[|window| - 1] - window[0] <= span
    ensures Allowed(s, window, rate, burst) as real <= burst + Earned(span, rate)
  {
    var now := window[0];
    var u := Used(s, now, rate, burst);
    UsedStaysSane(s, now, rate, burst);
    EarnedIsConserved(u, window[1..], rate, burst);
    EarnedGrows(After(u, window[1..], rate, burst).last - now, span, rate);
  }

  // ----- eviction -------------------------------------------------------------------------

  const IDLE_SECONDS := 300.0

  datatype Event<!Addr> = Call(addr: Addr, now: real) | Sweep(now: real)

  /** One call of an address, written out. */
  lemma CallAt<Addr>(entries: map<Addr, Bucket>, addr: Addr, now: real, rate: real, burst: real)
    ensures var b := EntryAt(entries, addr, now, burst);
      var level := if addr in entries then Level(entries[addr], now, rate, burst) else burst;
      && Refilled(b, now, rate, burst) == level && (Allows(b, now, rate, burst) <==> level >= 1.0)
      && Used(b, now, rate, burst) == Bucket(if level >= 1.0 then level - 1.0 else level, now)
      && (addr in entries ==> Min(b.tokens + Earned(now - b.last, rate), burst) == level)
  {
    hide Earned, Refilled, Used, Allows, Level, Min;
    var b := EntryAt(entries, addr, now, burst);
    CallLevel(b, now, rate, burst);
  }

  class RateLimiter<Addr(==)> {
    const rate: real
    const burst: real
    var entries: map<Addr, Bucket>

    constructor (rate: real, burst: real)
      ensures entries == map[] && this.rate == rate && this.burst == burst
    {
      this.rate, this.burst := rate, burst;
      entries := map[];
    }

    method Allow(addr: Addr, now: real) returns (allowed: bool)
      modifies this
      ensures allowed == Allows(EntryAt(old(entries), addr, now, burst), now, rate, burst)
      ensures entries == old(entries)[addr := Used(EntryAt(old(entries), addr, now, burst), now, rate, burst)]
      ensures var level := if addr in old(entries) then Level(old(entries)[addr], now, rate, burst) else burst;
        && (allowed <==> level >= 1.0)
        && entries == old(entries)[addr := Bucket(if allowed then level - 1.0 else level, now)]
    {
      hide Earned, Refilled, Used, Allows, Level;
      ghost var before := EntryAt(entries, addr, now, burst);
      CallAt(entries, addr, now, rate, burst);
      var entry: Bucket;
      if addr !in entries {
        entry := Bucket(burst, now);
      } else {
        entry := entries[addr];
        var elapsed := now - entry.last;
        var tokens := entry.tokens + Earned(elapsed, rate);
        if tokens > burst { tokens := burst; }
        entry := Bucket(tokens, now);
      }
      assert entry == Bucket(Refilled(before, now, rate, burst), now);
      allowed := entry.tokens >= 1.0;
      if allowed { entry := Bucket(entry.tokens - 1.0, now); }
      assert entry == Used(before, now, rate, burst);
      entries := entries[addr := entry];
    }

    /** One sweep: drops every entry that has been idle for more than five minutes. */
    method Cleanup(now: real)
      modifies this
      ensures entries == Swept(old(entries), now)
    {
      var cutoff := now - IDLE_SECONDS;
      var rest := entries.Keys;
      while rest != {}
        invariant rest <= old(entries).Keys
        invariant entries == map a | a in old(entries) &&
          (a in rest || !(old(entries)[a].last < cutoff)) :: old(entries)[a]
        decreases rest
      {
        var a :| a in rest;
        if entries[a].last < cutoff { entries := entries - {a}; }
        rest := rest - {a};
      }
    }
  }

  /** The entry a call works on; a missing one is full. */
  function EntryAt<Addr>(entries: map<Addr, Bucket>, addr: Addr, now: real, burst: real): Bucket {
    if addr in entries then entries[addr] else Bucket(burst, now)
  }

  function Swept<Addr>(entries: map<Addr, Bucket>, now: real): map<Addr, Bucket> {
    map a | a in entries && !(entries[a].last < now - IDLE_SECONDS) :: entries[a]
  }

  /** Same decisions now and later: equal entries, or a dropped one that is full again. */
  ghost predicate SameLimiter<Addr(!new)>(kept: map<Addr, Bucket>, swept: map<Addr, Bucket>, now: real, rate: real,
      burst: real) {
    && swept.Keys <= kept.Keys
    && (forall a :: a in kept ==> Sane(kept[a], rate, burst) && kept[a].last <= now)
    && (forall a :: a in swept ==> swept[a] == kept[a])
    && (forall a :: a in kept && a !in swept ==> kept[a].last < now - IDLE_SECONDS)
  }

  lemma IdleIsFull(b: Bucket, now: real, rate: real, burst: real)
    requires Sane(b, rate, burst) && Earned(IDLE_SECONDS, rate) >= burst && b.last <= now - IDLE_SECONDS
    ensures Refilled(b, now, rate, burst) == burst
  {
    EarnedGrows(IDLE_SECONDS, now - b.last, rate);
  }

  /** A limiter run: calls answered in turn, sweeps in between; `sweeping` says whether they happen. */
  function Decisions<Addr>(entries: map<Addr, Bucket>, events: seq<Event<Addr>>, sweeping: bool, rate: real,
      burst: real): seq<bool>
    decreases |events|
  {
    if events == [] then []
    else match events[0]
      case Call(a, now) =>
        [Allows(EntryAt(entries, a, now, burst), now, rate, burst)] +
        Decisions(entries[a := Used(EntryAt(entries, a, now, burst), now, rate, burst)], events[1..], sweeping, rate,
          burst)
      case Sweep(now) =>
        Decisions(if sweeping then Swept(entries, now) else entries, events[1..], sweeping, rate, burst)
  }

  ghost predicate InTime<Addr>(events: seq<Event<Addr>>, from: real) {
    events == [] || (from <= events[0].now && InTime(events[1..], events[0].now))
  }

  lemma {:induction false} SweepingChangesNothing<Addr(!new)>(
      kept: map<Addr, Bucket>, swept: map<Addr, Bucket>, events: seq<Event<Addr>>, from: real, rate: real, burst: real)
    requires Earned(IDLE_SECONDS, rate) >= burst >= 0.0 && rate >= 0.0
    requires SameLimiter(kept, swept, from, rate, burst) && InTime(events, from)
    ensures Decisions(kept, events, false, rate, burst) == Decisions(swept, events, true, rate, burst)
    decreases |events|
  {
    if events != [] {
      var now := events[0].now;
      match events[0] {
        case Call(a, _) =>
          var k, s := EntryAt(kept, a, now, burst), EntryAt(swept, a, now, burst);
          if a in kept {
            UsedStaysSane(kept[a], now, rate, burst);
            if a !in swept { IdleIsFull(kept[a], now, rate, burst); }
          }
          assert Refilled(k, now, rate, burst) == Refilled(s, now, rate, burst);
          var k', s' := kept[a := Used(k, now, rate, burst)], swept[a := Used(s, now, rate, burst)];
          assert SameLimiter(k', s', now, rate, burst);
          SweepingChangesNothing(k', s', events[1..], now, rate, burst);
        case Sweep(_) =>
          assert SameLimiter(kept, Swept(swept, now), now, rate, burst);
          SweepingChangesNothing(kept, Swept(swept, now), events[1..], now, rate, burst);
      }
    }
  }

  /** With rate * 300 at least burst, the sweeps never change a decision. */
  lemma EvictionIsInvisible<Addr(!new)>(events: seq<Event<Addr>>, from: real, rate: real, burst: real)
    requires rate * 300.0 >= burst >= 0.0 && rate >= 0.0 && InTime(events, from)
    ensures Decisions(map[], events, false, rate, burst) == Decisions(map[], events, true, rate, burst)
  {
    EarnedIs(IDLE_SECONDS, rate);
    SweepingChangesNothing(map[], map[], events, from, rate, burst);
  }

  // ----- the condition on eviction is exact -----------------------------------------------------

  function CallsAt<Addr>(a: Addr, now: real, n: nat): seq<Event<Addr>> {
    if n == 0 then [] else [Call(a, now)] + CallsAt(a, now, n - 1)
  }

  function AllTrue(n: nat): seq<bool> {
    if n == 0 then [] else [true] + AllTrue(n - 1)
  }

  /** A second call at the same instant finds what the first one left. */
  lemma AtOnce(b: Bucket, now: real, rate: real, burst: real)
    requires b.last == now && b.tokens <= burst
    ensures Refilled(b, now, rate, burst) == b.tokens && (Allows(b, now, rate, burst) <==> b.tokens >= 1.0)
    ensures Used(b, now, rate, burst) == Bucket(if b.tokens >= 1.0 then b.tokens - 1.0 else b.tokens, now)
  {
    assert Earned(now - b.last, rate) == 0.0;
  }

  lemma {:induction false} EnoughTokens<Addr>(
      entries: map<Addr, Bucket>, a: Addr, now: real, n: nat, rest: seq<Event<Addr>>, sweeping: bool, rate: real,
        burst: real)
    requires a in entries && entries[a].last == now && n as real <= entries[a].tokens <= burst
    ensures Decisions(entries, CallsAt(a, now, n) + rest, sweeping, rate, burst) ==
      AllTrue(n) + Decisions(entries[a := Bucket(entries[a].tokens - n as real, now)], rest, sweeping, rate, burst)
  {
    var events := CallsAt(a, now, n) + rest;
    if n == 0 {
      assert events == rest && entries[a := Bucket(entries[a].tokens - 0.0, now)] == entries;
    } else {
      hide Earned, Refilled, Used, Allows;
      AtOnce(entries[a], now, rate, burst);
      var next := entries[a := Bucket(entries[a].tokens - 1.0, now)];
      assert events[0] == Call(a, now) && events[1..] == CallsAt(a, now, n - 1) + rest;
      EnoughTokens(next, a, now, n - 1, rest, sweeping, rate, burst);
      assert next[a := Bucket(next[a].tokens - (n - 1) as real, now)] ==
        entries[a := Bucket(entries[a].tokens - n as real, now)];
    }
  }

  lemma {:induction false} TooFewTokens<Addr>(
      entries: map<Addr, Bucket>, a: Addr, now: real, n: nat, sweeping: bool, rate: real, burst: real)
    requires a in entries && Refilled(entries[a], now, rate, burst) < n as real
    requires n > 0
    ensures Decisions(entries, CallsAt(a, now, n), sweeping, rate, burst) != AllTrue(n)
  {
    var t := Refilled(entries[a], now, rate, burst);
    assert CallsAt(a, now, n)[1..] == CallsAt(a, now, n - 1);
    if t >= 1.0 {
      var next := entries[a := Bucket(t - 1.0, now)];
      assert Earned(0.0, rate) == 0.0;
      TooFewTokens(next, a, now, n - 1, sweeping, rate, burst);
      var d := Decisions(next, CallsAt(a, now, n - 1), sweeping, rate, burst);
      assert ([true] + d)[1..] == d && ([true] + AllTrue(n - 1))[1..] == AllTrue(n - 1);
    }
  }

  /** Spend the whole burst, rest for `idle` seconds, be swept, and spend it again. */
  function SpendRestSpend<Addr>(a: Addr, n: nat, idle: real): seq<Event<Addr>> {
    CallsAt(a, 0.0, n) + [Sweep(idle)] + CallsAt(a, idle, n)
  }

  /** An idle time past the cutoff that does not refill the bucket shows the sweep. */
  lemma EvictionShows<Addr(!new)>(a: Addr, n: nat, idle: real, rate: real)
    requires n > 0 && idle > 300.0 && rate >= 0.0 && rate * idle < n as real
    ensures Decisions(map[], SpendRestSpend(a, n, idle), false, rate, n as real) !=
            Decisions(map[], SpendRestSpend(a, n, idle), true, rate, n as real)
  {
    var burst, rest := n as real, [Sweep(idle)] + CallsAt(a, idle, n);
    var spent := map[a := Bucket(0.0, 0.0)];
    EarnedIs(idle, rate);
    assert SpendRestSpend(a, n, idle) == CallsAt(a, 0.0, n) + rest;
    FirstSpend(a, n, rest, false, rate);
    FirstSpend(a, n, rest, true, rate);
    assert rest[1..] == CallsAt(a, idle, n);
    TooFewTokens(spent, a, idle, n, false, rate, burst);
    assert Swept(spent, idle) == map[];
    FreshSpend(a, idle, n, rate);
    var kept, swept := Decisions(spent, rest, false, rate, burst), Decisions(spent, rest, true, rate, burst);
    assert (AllTrue(n) + kept)[|AllTrue(n)|..] == kept && (AllTrue(n) + swept)[|AllTrue(n)|..] == swept;
  }

  lemma FirstSpend<Addr>(a: Addr, n: nat, rest: seq<Event<Addr>>, sweeping: bool, rate: real)
    requires n > 0
    ensures Decisions(map[], CallsAt(a, 0.0, n) + rest, sweeping, rate, n as real) ==
      AllTrue(n) + Decisions(map[a := Bucket(0.0, 0.0)], rest, sweeping, rate, n as real)
  {
    var burst, events := n as real, CallsAt(a, 0.0, n) + rest;
    var one := map[a := Bucket(burst - 1.0, 0.0)];
    assert Earned(0.0, rate) == 0.0;
    assert events[1..] == CallsAt(a, 0.0, n - 1) + rest;
    EnoughTokens(one, a, 0.0, n - 1, rest, sweeping, rate, burst);
    assert one[a := Bucket(one[a].tokens - (n - 1) as real, 0.0)] == map[a := Bucket(0.0, 0.0)];
    assert Decisions(map[], events, sweeping, rate, burst) == [true] + Decisions(one, events[1..], sweeping, rate,
      burst);
  }

  lemma FreshSpend<Addr>(a: Addr, now: real, n: nat, rate: real)
    requires n > 0
    ensures Decisions(map[], CallsAt(a, now, n), true, rate, n as real) == AllTrue(n)
  {
    var burst := n as real;
    var one := map[a := Bucket(burst - 1.0, now)];
    assert Earned(0.0, rate) == 0.0;
    assert CallsAt(a, now, n)[1..] == CallsAt(a, now, n - 1) == CallsAt(a, now, n - 1) + [];
    EnoughTokens(one, a, now, n - 1, [], true, rate, burst);
    assert AllTrue(n - 1) + [] == AllTrue(n - 1);
    assert Decisions(map[], CallsAt(a, now, n), true, rate, burst) ==
      [true] + Decisions(one, CallsAt(a, now, n - 1), true, rate, burst);
  }

  /** A run in time in which the sweeps show. */
  ghost predicate SweepSeen<Addr>(events: seq<Event<Addr>>, from: real, rate: real, burst: real) {
    InTime(events, from) && !SweepUnseen(events, rate, burst)
  }

  ghost predicate SweepUnseen<Addr>(events: seq<Event<Addr>>, rate: real, burst: real) {
    Decisions(map[], events, false, rate, burst) == Decisions(map[], events, true, rate, burst)
  }

  /** Sweeping is invisible on every run exactly when five minutes refill the whole burst. */
  lemma EvictionIsInvisibleExactlyWhen<Addr(!new)>(a: Addr, rate: real, n: nat, burst: real)
    requires rate >= 0.0 && n > 0 && burst == n as real
    ensures rate * 300.0 >= burst <==>
      !exists events: seq<Event<Addr>>, from: real :: SweepSeen(events, from, rate, burst)
  {
    EarnedIs(IDLE_SECONDS, rate);
    if rate * 300.0 >= burst {
      forall events: seq<Event<Addr>>, from: real ensures !SweepSeen(events, from, rate, burst) {
        if InTime(events, from) { EvictionIsInvisible(events, from, rate, burst); }
      }
    } else {
      var idle := LittleLonger(rate, burst);
      EarnedIs(idle, rate);
      EvictionShows(a, n, idle, rate);
      SpendingIsInTime(a, n, idle);
      var events := SpendRestSpend(a, n, idle);
      assert SweepSeen(events, 0.0, rate, burst);
    }
  }

  lemma LittleLonger(rate: real, burst: real) returns (idle: real)
    requires rate >= 0.0 && Earned(IDLE_SECONDS, rate) < burst
    ensures idle > IDLE_SECONDS && Earned(idle, rate) < burst
  {
    var slack := burst - Earned(IDLE_SECONDS, rate);
    var more := slack / (rate + 1.0);
    assert more * (rate + 1.0) == slack;
    assert more > 0.0;
    assert Earned(more, rate) == slack - more;
    idle := IDLE_SECONDS + more;
    EarnedAdds(IDLE_SECONDS, more, rate);
  }

  lemma {:induction false} CallsAreInTime<Addr>(a: Addr, now: real, n: nat, rest: seq<Event<Addr>>)
    requires InTime(rest, now)
    ensures InTime(CallsAt(a, now, n) + rest, now)
  {
    if n == 0 {
      assert CallsAt(a, now, n) + rest == rest;
    } else {
      assert (CallsAt(a, now, n) + rest)[1..] == CallsAt(a, now, n - 1) + rest;
      CallsAreInTime(a, now, n - 1, rest);
    }
  }

  lemma SpendingIsInTime<Addr>(a: Addr, n: nat, idle: real)
    requires idle >= 0.0
    ensures InTime(SpendRestSpend(a, n, idle), 0.0)
  {
    CallsAreInTime(a, idle, n, []);
    var rest := [Sweep(idle)] + CallsAt(a, idle, n);
    assert rest[1..] == CallsAt(a, idle, n) == CallsAt(a, idle, n) + [];
    assert InTime(rest, 0.0);
    CallsAreInTime(a, 0.0, n, rest);
    assert SpendRestSpend(a, n, idle) == CallsAt(a, 0.0, n) + rest;
  }
}
