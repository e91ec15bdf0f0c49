/**
  The lock-free token bucket as a state machine over its atomic loads, stores and compare-and-swaps.
  Any number of threads run any sequence of calls; a schedule picks whose step is next. int64
  wrap-around is written out.
 */
module Limiter {
  import opened Int64

  const PRECISION := 1_000_000
  const NANOS := 1_000_000_000
  const MAX_REFILL := 9_223_372_036  // MAX64 / NANOS

  /** rate and burst already multiplied by the precision; start is the creation time. */
  datatype Config = Config(rate: nat, burst: nat, start: nat) {
    /** The fields are int64s. */
    predicate Typed() { rate <= MAX64 && burst <= MAX64 && start <= MAX64 }

    /** A full bucket to which a whole burst is returned does not overflow. */
    predicate Sane() { Typed() && burst + burst <= MAX64 }
  }

  datatype Call =
    | AllowN(n: int, now: nat)      // now: the clock read at the top of the call
    | PutBack(n: int)
    | PutBackFromLast(used: int)

  /** A thread: idle, or at one of the atomic operations of a call. */
  datatype Thread =
    | Idle
    | LoadLast(n: nat, now: nat)
    | SwapLast(n: nat, now: nat, last: int, added: int)
    | LoadRefill(n: nat, now: nat, added: int)
    | SwapRefill(n: nat, now: nat, added: int, seen: int)
    | LoadTokens(n: nat, now: nat)
    | SwapTokens(n: nat, now: nat, seen: int)
    | StoreConsumed(n: nat)
    | LoadPut(n: nat)
    | SwapPut(n: nat, seen: int)
    | LoadConsumed(n: nat)
    | StoreReduced(n: nat, seen: int)
    | LoadFromLast(used: nat)

  /** The shared words, the threads, and two history counters of granted and returned tokens. */
  datatype State = State(
    lastUpdate: int, available: int, lastConsumed: int, threads: seq<Thread>, granted: int, returned: int)

  function Tokens(n: nat): int { Wrap64(n * PRECISION) }

  function Generated(c: Config, elapsed: int): int {
    if elapsed > 0 then TruncDiv(Wrap64(elapsed * c.rate), NANOS) else 0
  }

  function Capped(c: Config, x: int): int { if x > c.burst then c.burst else x }

  /** What a bucket at level `seen` holds after a request, or a return, of n tokens. */
  function Taken(n: nat, seen: int): int { Wrap64(seen - Tokens(n)) }
  function Refilled(c: Config, n: nat, seen: int): int { Capped(c, Wrap64(seen + Tokens(n))) }

  function Begin(call: Call): Thread {
    match call
    case AllowN(n, now) => if n <= 0 then Idle else LoadLast(n, now)
    case PutBack(n) => if n <= 0 then Idle else LoadPut(n)
    case PutBackFromLast(used) => if used < 0 then Idle else LoadFromLast(used)
  }

  /** One atomic step of thread i; `call` is what it starts when it is idle. */
  function Next(c: Config, s: State, i: nat, call: Call): State {
    if i >= |s.threads| then s
    else match s.threads[i]
      case Idle => s.(threads := s.threads[i := Begin(call)])
      case LoadLast(n, now) =>
        var added := Generated(c, Wrap64(now - s.lastUpdate));
        s.(threads := s.threads[i := SwapLast(n, now, s.lastUpdate, added)])
      case SwapLast(n, now, last, added) =>
        if now - last > 0 && s.lastUpdate == last then
          s.(lastUpdate := now,
             threads := s.threads[i := if added > 0 then LoadRefill(n, now, added) else LoadTokens(n, now)])
        else s.(threads := s.threads[i := LoadTokens(n, now)])
      case LoadRefill(n, now, added) => s.(threads := s.threads[i := SwapRefill(n, now, added, s.available)])
      case SwapRefill(n, now, added, seen) =>
        if s.available == seen then
          s.(available := Capped(c, Wrap64(seen + added)), threads := s.threads[i := LoadTokens(n, now)])
        else s.(threads := s.threads[i := LoadRefill(n, now, added)])
      case LoadTokens(n, now) =>
        s.(threads := s.threads[i := if s.available >= Tokens(n) then SwapTokens(n, now, s.available) else Idle])
      case SwapTokens(n, now, seen) =>
        if s.available == seen then
          s.(available := Taken(n, seen), threads := s.threads[i := StoreConsumed(n)],
             granted := s.granted + n * PRECISION)
        else s.(threads := s.threads[i := LoadLast(n, now)])
      case StoreConsumed(n) => s.(lastConsumed := n, threads := s.threads[i := Idle])
      case LoadPut(n) => s.(threads := s.threads[i := SwapPut(n, s.available)])
      case SwapPut(n, seen) =>
        if s.available == seen then
          var next := Refilled(c, n, seen);
          s.(available := next, threads := s.threads[i := LoadConsumed(n)], returned := s.returned + (next - seen))
        else s.(threads := s.threads[i := LoadPut(n)])
      case LoadConsumed(n) => s.(threads := s.threads[i := StoreReduced(n, s.lastConsumed)])
      case StoreReduced(n, seen) =>
        s.(lastConsumed := if seen >= n then seen - n else 0, threads := s.threads[i := Idle])
      case LoadFromLast(used) =>
        s.(threads := s.threads[i := if s.lastConsumed - used > 0 then LoadPut(s.lastConsumed - used) else Idle])
  }

  datatype Move = Move(i: nat, call: Call)

  function Run(c: Config, s: State, moves: seq<Move>): State
    decreases |moves|
  {
    if moves == [] then s else Run(c, Next(c, s, moves[0].i, moves[0].call), moves[1..])
  }

  function Initial(c: Config, threads: nat): State {
    State(c.start, c.burst, 0, seq(threads, _ => Idle), 0, 0)
  }

  // ----- arithmetic

  lemma GeneratedBound(c: Config, elapsed: nat)
    ensures Generated(c, elapsed) <= MAX_REFILL
    ensures Generated(c, elapsed) * NANOS <= elapsed * c.rate
  {
    WrapNeverGains(elapsed * c.rate);
  }

  /** A request is taken at its true size exactly up to 9223372036854 tokens; beyond, it wraps. */
  lemma TokensExact(n: nat)
    ensures Tokens(n) == n * PRECISION <==> n <= 9_223_372_036_854
  {
  }

  // ----- the invariant

  function InFlight(t: Thread): int {
    match t
    case LoadRefill(_, _, added) => added
    case SwapRefill(_, _, added, _) => added
    case _ => 0
  }

  function TotalInFlight(ts: seq<Thread>): int {
    if ts == [] then 0 else InFlight(ts[0]) + TotalInFlight(ts[1..])
  }

  lemma {:induction false} InFlightUpdate(ts: seq<Thread>, i: nat, t: Thread)
    requires i < |ts|
    ensures TotalInFlight(ts[i := t]) == TotalInFlight(ts) - InFlight(ts[i]) + InFlight(t)
  {
    if i > 0 {
      InFlightUpdate(ts[1..], i - 1, t);
      assert ts[i := t][1..] == ts[1..][i - 1 := t];
    } else {
      assert ts[i := t][1..] == ts[1..];
    }
  }

  /** A request that does not wrap, or wraps to more than the bucket can ever hold. */
  predicate Chargeable(c: Config, n: nat) { n <= 9_223_372_036_854 || Tokens(n) > c.burst }

  /** A return that, even if it wraps, does not overflow a full bucket. */
  predicate Returnable(c: Config, n: nat) { 0 <= Tokens(n) <= MAX64 - c.burst }

  /** A request is charged in full, whatever the level of the bucket, exactly when it is chargeable. */
  lemma ChargeableIff(c: Config, n: nat)
    requires c.Typed()
    ensures Chargeable(c, n)
       <==> forall seen :: 0 <= seen <= c.burst && seen >= Tokens(n) ==> 0 <= Taken(n, seen) == seen - n * PRECISION
  {
    TokensExact(n);
    if !Chargeable(c, n) {
      var seen := if Tokens(n) > 0 then Tokens(n) else 0;
      WrapNeverGains(n * PRECISION);
      assert 0 <= seen <= c.burst && seen >= Tokens(n) && Taken(n, seen) != seen - n * PRECISION;
    }
  }

  /** A return keeps every bucket between empty and full exactly when it is returnable. */
  lemma ReturnableIff(c: Config, n: nat)
    requires c.Typed()
    ensures Returnable(c, n) <==> forall seen :: 0 <= seen <= c.burst ==> 0 <= Refilled(c, n, seen) <= c.burst
  {
    assert Refilled(c, n, 0) == Capped(c, Tokens(n));
    if Tokens(n) > MAX64 - c.burst {
      assert Refilled(c, n, c.burst) < 0;
    }
  }

  predicate SaneCall(c: Config, call: Call) {
    match call
    case AllowN(n, now) => (n > 0 ==> Chargeable(c, n)) && now <= MAX64
    case PutBack(n) => n > 0 ==> Returnable(c, n)
    case PutBackFromLast(_) => true
  }

  ghost predicate ThreadOk(c: Config, t: Thread) {
    match t
    case LoadLast(n, now) => Chargeable(c, n) && now <= MAX64
    case SwapLast(n, now, last, added) =>
      && Chargeable(c, n) && now <= MAX64 && added <= MAX_REFILL
      && (now > last ==> added * NANOS <= (now - last) * c.rate)
    case LoadRefill(n, now, added) => Chargeable(c, n) && now <= MAX64 && 0 < added <= MAX_REFILL
    case SwapRefill(n, now, added, _) => Chargeable(c, n) && now <= MAX64 && 0 < added <= MAX_REFILL
    case LoadTokens(n, now) => Chargeable(c, n) && now <= MAX64
    case SwapTokens(n, now, seen) => n <= 9_223_372_036_854 && Chargeable(c, n) && now <= MAX64 && n * PRECISION <= seen
    case StoreConsumed(n) => n * PRECISION <= c.burst
    case LoadPut(n) => Returnable(c, n)
    case SwapPut(n, _) => Returnable(c, n)
    case StoreReduced(_, seen) => seen * PRECISION <= c.burst
    case _ => true
  }

  /** The accounting: what is granted, left and on its way in, against what was ever put in. */
  ghost predicate Bounded(c: Config, s: State) {
    && 0 <= s.available <= c.burst
    && c.start <= s.lastUpdate <= MAX64
    && s.lastConsumed * PRECISION <= c.burst
    && (s.granted + s.available + TotalInFlight(s.threads)) * NANOS
       <= (c.burst + s.returned) * NANOS + (s.lastUpdate - c.start) * c.rate
  }

  ghost predicate Inv(c: Config, s: State) {
    Bounded(c, s) && forall i :: 0 <= i < |s.threads| ==> ThreadOk(c, s.threads[i])
  }

  // ----- the steps that touch the bucket

  /** Moving lastUpdate forward pays for the tokens that go in flight. */
  lemma ClockStep(c: Config, s: State, i: nat, n: nat, now: nat, last: int, added: int)
    requires c.Sane() && Inv(c, s) && i < |s.threads| && s.threads[i] == SwapLast(n, now, last, added)
    requires now > last == s.lastUpdate
    ensures var t := if added > 0 then LoadRefill(n, now, added) else LoadTokens(n, now);
            Bounded(c, s.(lastUpdate := now, threads := s.threads[i := t]))
  {
    assert ThreadOk(c, s.threads[i]);
    var t := if added > 0 then LoadRefill(n, now, added) else LoadTokens(n, now);
    InFlightUpdate(s.threads, i, t);
    Stretch(c.start, last, now, c.rate);
    var earned := (now - last) * c.rate;
    var held := s.granted + s.available + TotalInFlight(s.threads);
    assert InFlight(t) * NANOS <= earned;
    Covers(held, InFlight(t), (c.burst + s.returned) * NANOS + (last - c.start) * c.rate, earned);
  }

  lemma Stretch(a: int, b: int, d: int, rate: nat)
    ensures (d - a) * rate == (b - a) * rate + (d - b) * rate
    ensures d >= b ==> (d - b) * rate >= 0
  {
  }

  lemma Covers(held: int, extra: int, cover: int, earned: int)
    requires held * NANOS <= cover && extra * NANOS <= earned
    ensures (held + extra) * NANOS <= cover + earned
  {
  }

  /** Landing a refill: capped, so the bucket never overflows. */
  lemma RefillStep(c: Config, s: State, i: nat, n: nat, now: nat, added: int)
    requires c.Sane() && Inv(c, s) && i < |s.threads| && s.threads[i] == SwapRefill(n, now, added, s.available)
    ensures Bounded(c, s.(available := Capped(c, Wrap64(s.available + added)),
                          threads := s.threads[i := LoadTokens(n, now)]))
  {
    assert ThreadOk(c, s.threads[i]);
    InFlightUpdate(s.threads, i, LoadTokens(n, now));
    WrapIdle(s.available + added);
  }

  lemma ConsumeStep(c: Config, s: State, i: nat, n: nat, now: nat)
    requires c.Sane() && Inv(c, s) && i < |s.threads| && s.threads[i] == SwapTokens(n, now, s.available)
    ensures Bounded(c, s.(available := Taken(n, s.available), threads := s.threads[i := StoreConsumed(n)],
                          granted := s.granted + n * PRECISION))
  {
    assert ThreadOk(c, s.threads[i]);
    InFlightUpdate(s.threads, i, StoreConsumed(n));
    TokensExact(n);
    WrapIdle(s.available - Tokens(n));
  }

  lemma PutStep(c: Config, s: State, i: nat, n: nat)
    requires c.Sane() && Inv(c, s) && i < |s.threads| && s.threads[i] == SwapPut(n, s.available)
    ensures var next := Refilled(c, n, s.available);
            Bounded(c, s.(available := next, threads := s.threads[i := LoadConsumed(n)],
                          returned := s.returned + (next - s.available)))
  {
    assert ThreadOk(c, s.threads[i]);
    InFlightUpdate(s.threads, i, LoadConsumed(n));
    WrapIdle(s.available + Tokens(n));
  }

  /** A step that only moves the thread, between states with the same tokens in flight. */
  lemma QuietStep(c: Config, s: State, i: nat, t: Thread)
    requires Bounded(c, s) && i < |s.threads| && InFlight(t) == InFlight(s.threads[i])
    ensures Bounded(c, s.(threads := s.threads[i := t]))
  {
    InFlightUpdate(s.threads, i, t);
  }

  predicate Swaps(t: Thread) { t.SwapLast? || t.SwapRefill? || t.SwapTokens? || t.SwapPut? }

  /** A compare-and-swap that finds what was loaded. */
  lemma SwapBounded(c: Config, s: State, i: nat, call: Call)
    requires c.Sane() && Inv(c, s) && i < |s.threads| && Swaps(s.threads[i])
    ensures Bounded(c, Next(c, s, i, call))
  {
    match s.threads[i]
    case SwapTokens(n, now, seen) => SwapTokensBounded(c, s, i, call, n, now, seen);
    case SwapPut(n, seen) => SwapPutBounded(c, s, i, call, n, seen);
    case _ => SwapRefillBounded(c, s, i, call);
  }

  lemma SwapTokensBounded(c: Config, s: State, i: nat, call: Call, n: nat, now: nat, seen: int)
    requires c.Sane() && Inv(c, s) && i < |s.threads| && s.threads[i] == SwapTokens(n, now, seen)
    ensures Bounded(c, Next(c, s, i, call))
  {
    if s.available == seen { ConsumeStep(c, s, i, n, now); } else { QuietStep(c, s, i, LoadLast(n, now)); }
  }

  lemma SwapPutBounded(c: Config, s: State, i: nat, call: Call, n: nat, seen: int)
    requires c.Sane() && Inv(c, s) && i < |s.threads| && s.threads[i] == SwapPut(n, seen)
    ensures Bounded(c, Next(c, s, i, call))
  {
    if s.available == seen { PutStep(c, s, i, n); } else { QuietStep(c, s, i, LoadPut(n)); }
  }

  /** The two that move the clock and add what it has earned. */
  lemma SwapRefillBounded(c: Config, s: State, i: nat, call: Call)
    requires c.Sane() && Inv(c, s) && i < |s.threads| && (s.threads[i].SwapLast? || s.threads[i].SwapRefill?)
    ensures Bounded(c, Next(c, s, i, call))
  {
    match s.threads[i]
    case SwapLast(n, now, last, added) =>
      if now > last && s.lastUpdate == last { ClockStep(c, s, i, n, now, last, added); }
      else { QuietStep(c, s, i, LoadTokens(n, now)); }
    case SwapRefill(n, now, added, seen) =>
      if s.available == seen { RefillStep(c, s, i, n, now, added); }
      else { QuietStep(c, s, i, LoadRefill(n, now, added)); }
  }

  lemma StoreBounded(c: Config, s: State, i: nat, v: int)
    requires Bounded(c, s) && i < |s.threads| && InFlight(s.threads[i]) == 0 && v * PRECISION <= c.burst
    ensures Bounded(c, s.(lastConsumed := v, threads := s.threads[i := Idle]))
  {
    InFlightUpdate(s.threads, i, Idle);
  }

  /** Shared state after one step. */
  lemma StepBounded(c: Config, s: State, i: nat, call: Call)
    requires c.Sane() && Inv(c, s) && i < |s.threads|
    ensures Bounded(c, Next(c, s, i, call))
  {
    assert ThreadOk(c, s.threads[i]);
    if Swaps(s.threads[i]) {
      SwapBounded(c, s, i, call);
    } else if s.threads[i].StoreConsumed? || s.threads[i].StoreReduced? {
      StoreBounded(c, s, i, Next(c, s, i, call).lastConsumed);
    } else {
      QuietStep(c, s, i, Next(c, s, i, call).threads[i]);
    }
  }

  lemma LoadedClock(c: Config, s: State, n: nat, now: nat)
    requires Bounded(c, s) && ThreadOk(c, LoadLast(n, now))
    ensures ThreadOk(c, SwapLast(n, now, s.lastUpdate, Generated(c, Wrap64(now - s.lastUpdate))))
  {
    WrapIdle(now - s.lastUpdate);
    if now > s.lastUpdate { GeneratedBound(c, now - s.lastUpdate); }
  }

  lemma LoadedTokens(c: Config, s: State, n: nat, now: nat)
    requires Bounded(c, s) && ThreadOk(c, LoadTokens(n, now)) && s.available >= Tokens(n)
    ensures ThreadOk(c, SwapTokens(n, now, s.available))
  {
    TokensExact(n);
  }

  lemma LoadedGrant(c: Config, s: State, used: nat)
    requires c.Sane() && Bounded(c, s) && s.lastConsumed > used
    ensures ThreadOk(c, LoadPut(s.lastConsumed - used))
  {
    TokensExact(s.lastConsumed - used);
  }

  lemma BeginOk(c: Config, call: Call)
    requires SaneCall(c, call)
    ensures ThreadOk(c, Begin(call))
  {
  }

  /** The moving thread after one step: a load, */
  lemma LoadThread(c: Config, s: State, i: nat, call: Call)
    requires c.Sane() && SaneCall(c, call) && Inv(c, s) && i < |s.threads| && !Swaps(s.threads[i])
    ensures ThreadOk(c, Next(c, s, i, call).threads[i])
  {
    assert ThreadOk(c, s.threads[i]);
    match s.threads[i]
    case Idle => BeginOk(c, call);
    case LoadLast(n, now) => LoadedClock(c, s, n, now);
    case LoadTokens(n, now) => if s.available >= Tokens(n) { LoadedTokens(c, s, n, now); }
    case LoadFromLast(used) => if s.lastConsumed > used { LoadedGrant(c, s, used); }
    case _ =>
  }

  /** or a compare-and-swap. */
  lemma SwapThread(c: Config, s: State, i: nat, call: Call)
    requires c.Sane() && Inv(c, s) && i < |s.threads| && Swaps(s.threads[i])
    ensures ThreadOk(c, Next(c, s, i, call).threads[i])
  {
    assert ThreadOk(c, s.threads[i]);
  }

  lemma StepInv(c: Config, s: State, i: nat, call: Call)
    requires c.Sane() && SaneCall(c, call) && Inv(c, s)
    ensures Inv(c, Next(c, s, i, call))
  {
    if i < |s.threads| {
      StepBounded(c, s, i, call);
      if Swaps(s.threads[i]) { SwapThread(c, s, i, call); } else { LoadThread(c, s, i, call); }
    }
  }

  lemma {:induction false} RunInv(c: Config, s: State, moves: seq<Move>)
    requires c.Sane() && Inv(c, s) && forall k :: 0 <= k < |moves| ==> SaneCall(c, moves[k].call)
    ensures Inv(c, Run(c, s, moves))
    decreases |moves|
  {
    if moves != [] {
      StepInv(c, s, moves[0].i, moves[0].call);
      RunInv(c, Next(c, s, moves[0].i, moves[0].call), moves[1..]);
    }
  }

  lemma {:induction false} IdleInFlight(n: nat)
    ensures TotalInFlight(seq(n, _ => Idle)) == 0
  {
    if n > 0 {
      assert seq(n, _ => Idle)[1..] == seq(n - 1, _ => Idle);
      IdleInFlight(n - 1);
    }
  }

  /**
    In every interleaving the bucket stays between empty and full, and everything granted, left and
    still in flight is covered by the initial burst, the rate over the time accounted for, and the
    tokens put back, even where elapsed * rate wraps.
   */
  lemma {:induction false} RateIsBounded(c: Config, threads: nat, moves: seq<Move>)
    requires c.Sane() && forall k :: 0 <= k < |moves| ==> SaneCall(c, moves[k].call)
    ensures var s := Run(c, Initial(c, threads), moves);
            && 0 <= s.available <= c.burst
            && s.lastUpdate >= c.start
            && 0 <= TotalInFlight(s.threads)
            && (s.granted + s.available + TotalInFlight(s.threads)) * NANOS
               <= (c.burst + s.returned) * NANOS + (s.lastUpdate - c.start) * c.rate
  {
    var s0 := Initial(c, threads);
    IdleInFlight(threads);
    RunInv(c, s0, moves);
    var s := Run(c, s0, moves);
    InFlightPositive(c, s.threads);
  }

  lemma {:induction false} InFlightPositive(c: Config, ts: seq<Thread>)
    requires forall i :: 0 <= i < |ts| ==> ThreadOk(c, ts[i])
    ensures TotalInFlight(ts) >= 0
  {
    if ts != [] {
      assert ThreadOk(c, ts[0]);
      InFlightPositive(c, ts[1..]);
    }
  }

  /** A single thread that keeps making one call. */
  function Alone(call: Call, n: nat): seq<Move> { seq(n, _ => Move(0, call)) }

  lemma AloneStep(c: Config, s: State, call: Call, n: nat)
    requires n > 0
    ensures Run(c, s, Alone(call, n)) == Run(c, Next(c, s, 0, call), Alone(call, n - 1))
  {
    assert Alone(call, n)[1..] == Alone(call, n - 1);
  }

  /** Five steps of one request on a full bucket that no time has passed for. */
  lemma FirstRequest(c: Config, n: nat)
    requires c.Typed() && n > 0 && Tokens(n) <= c.burst
    ensures var s := Run(c, Initial(c, 1), Alone(AllowN(n, c.start), 5));
            s == State(c.start, Taken(n, c.burst), 0, [StoreConsumed(n)], n * PRECISION, 0)
  {
    var call, now := AllowN(n, c.start), c.start;
    var s0 := State(now, c.burst, 0, [Idle], 0, 0);
    assert Initial(c, 1) == s0;
    var s1, s2 := s0.(threads := [LoadLast(n, now)]), s0.(threads := [SwapLast(n, now, now, 0)]);
    var s3, s4 := s0.(threads := [LoadTokens(n, now)]), s0.(threads := [SwapTokens(n, now, c.burst)]);
    assert Wrap64(now - now) == 0;
    assert Next(c, s0, 0, call) == s1 && Next(c, s1, 0, call) == s2 && Next(c, s2, 0, call) == s3;
    assert Next(c, s3, 0, call) == s4;
    AloneStep(c, s0, call, 5);
    AloneStep(c, s1, call, 4);
    AloneStep(c, s2, call, 3);
    AloneStep(c, s3, call, 2);
    AloneStep(c, s4, call, 1);
  }

  /** Why requests must be chargeable: any other one breaks the bound when it is the very first. */
  lemma UnchargeableBreaks(c: Config, n: nat)
    requires c.Typed() && !Chargeable(c, n)
    ensures var s := Run(c, Initial(c, 1), Alone(AllowN(n, c.start), 5));
            !(0 <= s.available <= c.burst) || s.granted + s.available > c.burst + s.returned
  {
    FirstRequest(c, n);
    TokensExact(n);
    WrapNeverGains(n * PRECISION);
  }

  /** A return this large leaves a bucket of one token negative. */
  lemma OversizedPutBack()
    ensures var c := Config(0, PRECISION, 0);
            c.Sane() && Run(c, Initial(c, 1), Alone(PutBack(9_223_372_036_854), 3)).available < 0
  {
    var c, n := Config(0, PRECISION, 0), 9_223_372_036_854;
    var s0 := State(0, PRECISION, 0, [Idle], 0, 0);
    assert Initial(c, 1) == s0;
    AloneStep(c, s0, PutBack(n), 3);
    AloneStep(c, s0.(threads := [LoadPut(n)]), PutBack(n), 2);
    AloneStep(c, s0.(threads := [SwapPut(n, PRECISION)]), PutBack(n), 1);
  }

  // ----- oversized buckets

  /** Every run of sane calls keeps the bucket between empty and full. */
  ghost predicate Contained(c: Config, threads: nat) {
    forall moves: seq<Move> ::
      (forall k :: 0 <= k < |moves| ==> SaneCall(c, moves[k].call)) ==>
        0 <= Run(c, Initial(c, threads), moves).available <= c.burst
  }

  lemma {:induction false} RunAppend(c: Config, s: State, a: seq<Move>, b: seq<Move>)
    ensures Run(c, s, a + b) == Run(c, Run(c, s, a), b)
    decreases |a|
  {
    if a == [] {
      assert a + b == b;
    } else {
      assert (a + b)[1..] == a[1..] + b;
      RunAppend(c, Next(c, s, a[0].i, a[0].call), a[1..], b);
    }
  }

  /** The whole burst is granted to thread 0: six steps. */
  function Drain(c: Config): seq<Move> { seq(6, _ => Move(0, AllowN(c.burst / PRECISION, c.start))) }

  lemma Drained(c: Config)
    requires c.Typed() && c.burst > 0 && c.burst % PRECISION == 0
    ensures Run(c, Initial(c, 2), Drain(c))
         == State(c.start, 0, c.burst / PRECISION, [Idle, Idle], c.burst, 0)
  {
    var n, now := c.burst / PRECISION, c.start;
    var call, s3 := AllowN(n, now), State(now, c.burst, 0, [LoadTokens(n, now), Idle], 0, 0);
    ReachTokens(c, n, 6);
    TokensExact(n);
    assert n * PRECISION == c.burst && Taken(n, c.burst) == 0;
    var s4 := s3.(threads := [SwapTokens(n, now, c.burst), Idle]);
    var s5 := State(now, 0, 0, [StoreConsumed(n), Idle], c.burst, 0);
    Repeat(c, s3, s4, call, 3);
    Repeat(c, s4, s5, call, 2);
    Repeat(c, s5, State(now, 0, n, [Idle, Idle], c.burst, 0), call, 1);
  }

  /** The first three steps: no time has passed, so nothing is refilled. */
  lemma ReachTokens(c: Config, n: nat, steps: nat)
    requires n > 0 && steps >= 3
    ensures var call := AllowN(n, c.start);
            Run(c, Initial(c, 2), Alone(call, steps))
            == Run(c, State(c.start, c.burst, 0, [LoadTokens(n, c.start), Idle], 0, 0), Alone(call, steps - 3))
  {
    var call, now := AllowN(n, c.start), c.start;
    var s0 := State(now, c.burst, 0, [Idle, Idle], 0, 0);
    assert Initial(c, 2) == s0 && Wrap64(now - now) == 0;
    var s1, s2 := s0.(threads := [LoadLast(n, now), Idle]), s0.(threads := [SwapLast(n, now, now, 0), Idle]);
    Repeat(c, s0, s1, call, steps);
    Repeat(c, s1, s2, call, steps - 1);
    Repeat(c, s2, s0.(threads := [LoadTokens(n, now), Idle]), call, steps - 2);
  }

  lemma Repeat(c: Config, s: State, s': State, call: Call, n: nat)
    requires n > 0 && Next(c, s, 0, call) == s'
    ensures Run(c, s, Alone(call, n)) == Run(c, s', Alone(call, n - 1))
  {
    AloneStep(c, s, call, n);
  }

  const BACK := PutBackFromLast(0)

  /** Two threads return the last grant: both read it before either has reduced it. */
  const READ: seq<Move> := [Move(0, BACK), Move(1, BACK), Move(0, BACK), Move(1, BACK)]
  const PUT: seq<Move> := [Move(0, BACK), Move(0, BACK), Move(1, BACK), Move(1, BACK)]

  lemma RunFour(c: Config, s: State, moves: seq<Move>)
    requires |moves| == 4
    ensures var s1 := Next(c, s, moves[0].i, moves[0].call);
            var s2 := Next(c, s1, moves[1].i, moves[1].call);
            var s3 := Next(c, s2, moves[2].i, moves[2].call);
            Run(c, s, moves) == Next(c, s3, moves[3].i, moves[3].call)
  {
    var s1 := Next(c, s, moves[0].i, moves[0].call);
    var s2 := Next(c, s1, moves[1].i, moves[1].call);
    assert Run(c, s, moves) == Run(c, s1, moves[1..]);
    assert Run(c, s1, moves[1..]) == Run(c, s2, moves[2..]) by { assert moves[1..][1..] == moves[2..]; }
    var s3 := Next(c, s2, moves[2].i, moves[2].call);
    assert Run(c, s2, moves[2..]) == Run(c, s3, moves[3..]) by { assert moves[2..][1..] == moves[3..]; }
    assert moves[3..] == [moves[3]] && [moves[3]][1..] == [];
    assert Run(c, Next(c, s3, moves[3].i, moves[3].call), []) == Next(c, s3, moves[3].i, moves[3].call);
  }

  lemma BothRead(c: Config, n: nat)
    requires n > 0
    ensures var s := State(c.start, 0, n, [Idle, Idle], c.burst, 0);
            Run(c, s, READ) == s.(threads := [LoadPut(n), LoadPut(n)])
  {
    RunFour(c, State(c.start, 0, n, [Idle, Idle], c.burst, 0), READ);
  }

  lemma BothPut(c: Config, n: nat)
    requires c.Typed() && n > 0 && c.burst == n * PRECISION && c.burst + c.burst > MAX64
    ensures Run(c, State(c.start, 0, n, [LoadPut(n), LoadPut(n)], c.burst, 0), PUT).available < 0
  {
    TokensExact(n);
    assert Refilled(c, n, 0) == c.burst && Refilled(c, n, c.burst) < 0;
    RunFour(c, State(c.start, 0, n, [LoadPut(n), LoadPut(n)], c.burst, 0), PUT);
  }

  /** A grant of the whole burst, returned by two threads at once, overflows a bucket of more than half of int64. */
  lemma {:induction false} LargeBurstBreaks(c: Config)
    requires c.Typed() && c.burst % PRECISION == 0 && !c.Sane()
    ensures !Contained(c, 2)
  {
    var n := c.burst / PRECISION;
    var moves := Drain(c) + (READ + PUT);
    Drained(c);
    BothRead(c, n);
    BothPut(c, n);
    RunAppend(c, State(c.start, 0, n, [Idle, Idle], c.burst, 0), READ, PUT);
    RunAppend(c, Initial(c, 2), Drain(c), READ + PUT);
    assert SaneCall(c, BACK) && SaneCall(c, AllowN(n, c.start));
    assert forall k :: 0 <= k < |moves| ==> SaneCall(c, moves[k].call);
  }

  /** The bucket stays between empty and full, for any number of threads, exactly up to half of int64. */
  lemma {:induction false} ContainedIff(c: Config)
    requires c.Typed() && c.burst % PRECISION == 0
    ensures (forall threads: nat :: Contained(c, threads)) <==> c.burst + c.burst <= MAX64
  {
    if c.Sane() {
      forall threads: nat ensures Contained(c, threads) {
        forall moves: seq<Move> | forall k :: 0 <= k < |moves| ==> SaneCall(c, moves[k].call)
          ensures 0 <= Run(c, Initial(c, threads), moves).available <= c.burst
        {
          RateIsBounded(c, threads, moves);
        }
      }
    } else {
      LargeBurstBreaks(c);
    }
  }

  // ----- returns that are not returnable

  /** One return by thread 0: three steps. */
  lemma PutOnce(c: Config, s: State, n: nat)
    requires |s.threads| == 2 && s.threads[0].Idle? && n > 0
    ensures Run(c, s, Alone(PutBack(n), 3)).available == Refilled(c, n, s.available)
  {
    var call := PutBack(n);
    var s1 := s.(threads := s.threads[0 := LoadPut(n)]);
    var s2 := s.(threads := s.threads[0 := SwapPut(n, s.available)]);
    assert s1.threads[0 := SwapPut(n, s.available)] == s2.threads;
    Repeat(c, s, s1, call, 3);
    Repeat(c, s1, s2, call, 2);
    Repeat(c, s2, Next(c, s2, 0, call), call, 1);
    assert Alone(call, 0) == [];
  }

  /**
    Why returns must be returnable: with a burst of whole tokens, any other return leaves the bucket
    negative, at once if it is full, or once it has been emptied.
   */
  lemma {:induction false} UnreturnableBreaks(c: Config, n: nat) returns (moves: seq<Move>)
    requires c.Typed() && c.burst % PRECISION == 0 && n > 0 && !Returnable(c, n)
    ensures forall k :: 0 <= k < |moves| ==> moves[k].call == PutBack(n) || SaneCall(c, moves[k].call)
    ensures Run(c, Initial(c, 2), moves).available < 0
  {
    if Tokens(n) >= 0 || c.burst == 0 {
      moves := Alone(PutBack(n), 3);
      PutOnce(c, Initial(c, 2), n);
    } else {
      moves := Drain(c) + Alone(PutBack(n), 3);
      BelowEmpty(c, n);
      assert SaneCall(c, AllowN(c.burst / PRECISION, c.start));
    }
  }

  lemma BelowEmpty(c: Config, n: nat)
    requires c.Typed() && c.burst > 0 && c.burst % PRECISION == 0 && n > 0 && Tokens(n) < 0
    ensures Run(c, Initial(c, 2), Drain(c) + Alone(PutBack(n), 3)).available < 0
  {
    Drained(c);
    RunAppend(c, Initial(c, 2), Drain(c), Alone(PutBack(n), 3));
    PutOnce(c, Run(c, Initial(c, 2), Drain(c)), n);
    assert Refilled(c, n, 0) == Tokens(n) by { assert Wrap64(Tokens(n)) == Tokens(n); }
  }

  // ----- calls that nobody interrupts

  /** Without wrap-around the refill is what the rate earns in the time that has passed, rounded down. */
  lemma GeneratedExact(c: Config, elapsed: nat)
    requires elapsed * c.rate <= MAX64
    ensures Generated(c, elapsed) == elapsed * c.rate / 1_000_000_000
  {
    WrapNeverGains(elapsed * c.rate);
  }

  /** n steps of one thread; an idle thread starts the call. */
  function Turns(i: nat, call: Call, n: nat): seq<Move> { seq(n, _ => Move(i, call)) }

  lemma Turn(c: Config, s: State, i: nat, call: Call, n: nat)
    requires n > 0
    ensures Run(c, s, Turns(i, call, n)) == Run(c, Next(c, s, i, call), Turns(i, call, n - 1))
  {
    assert Turns(i, call, n)[1..] == Turns(i, call, n - 1);
  }

  lemma TurnsAppend(c: Config, s: State, i: nat, call: Call, a: nat, b: nat)
    ensures Run(c, s, Turns(i, call, a + b)) == Run(c, Run(c, s, Turns(i, call, a)), Turns(i, call, b))
  {
    RunAppend(c, s, Turns(i, call, a), Turns(i, call, b));
    assert Turns(i, call, a + b) == Turns(i, call, a) + Turns(i, call, b);
  }

  function At(s: State, i: nat, t: Thread): State
    requires i < |s.threads|
  {
    s.(threads := s.threads[i := t])
  }

  /** Thread i of s, standing at t, takes a step to t' that makes s into s'. */
  predicate Steps(c: Config, s: State, i: nat, call: Call, t: Thread, s': State, t': Thread) {
    && i < |s.threads| && s'.threads == s.threads
    && Next(c, At(s, i, t), i, call) == At(s', i, t')
  }

  lemma Move1(c: Config, s: State, i: nat, call: Call, t: Thread, s': State, t': Thread, n: nat)
    requires n > 0 && Steps(c, s, i, call, t, s', t')
    ensures Run(c, At(s, i, t), Turns(i, call, n)) == Run(c, At(s', i, t'), Turns(i, call, n - 1))
  {
    Turn(c, At(s, i, t), i, call, n);
  }

  /** What the bucket holds at time `now`, refilled and capped. */
  function Level(c: Config, s: State, now: nat): int {
    if now <= s.lastUpdate then s.available
    else
      var full := s.available + (now - s.lastUpdate) * c.rate / NANOS;
      if full < c.burst then full else c.burst
  }

  /** No product or sum of a request of n tokens at time `now` leaves int64. */
  predicate Unwrapped(c: Config, s: State, n: nat, now: nat) {
    && c.Typed() && 0 <= s.lastUpdate <= MAX64 && now <= MAX64 && 0 <= s.available <= c.burst
    && n * PRECISION <= MAX64
    && (now > s.lastUpdate ==>
          && (now - s.lastUpdate) * c.rate <= MAX64
          && s.available + (now - s.lastUpdate) * c.rate / NANOS <= MAX64)
  }

  predicate Refills(c: Config, s: State, now: nat) {
    now > s.lastUpdate && (now - s.lastUpdate) * c.rate / NANOS > 0
  }

  /** What the clock has earned since the last update. */
  function Earned(c: Config, s: State, now: nat): nat
    requires s.lastUpdate >= 0
  {
    if now > s.lastUpdate then (now - s.lastUpdate) * c.rate / NANOS else 0
  }

  lemma EarnedIs(c: Config, s: State, n: nat, now: nat)
    requires Unwrapped(c, s, n, now)
    ensures Generated(c, Wrap64(now - s.lastUpdate)) == Earned(c, s, now)
    ensures s.available + Earned(c, s, now) <= MAX64
  {
    WrapIdle(now - s.lastUpdate);
    if now > s.lastUpdate { GeneratedExact(c, now - s.lastUpdate); }
  }

  /** The clock is moved: three steps. */
  lemma SoloClock(c: Config, s: State, i: nat, n: nat, now: nat, added: nat)
    requires n > 0 && i < |s.threads| && s.threads[i].Idle? && added == Generated(c, Wrap64(now - s.lastUpdate))
    requires now <= s.lastUpdate ==> added == 0
    ensures var last := s.lastUpdate;
            Run(c, s, Turns(i, AllowN(n, now), 3))
            == At(s.(lastUpdate := if now > last then now else last), i,
                  if added > 0 then LoadRefill(n, now, added) else LoadTokens(n, now))
  {
    var last, call := s.lastUpdate, AllowN(n, now);
    var s' := s.(lastUpdate := if now > last then now else last);
    assert At(s, i, Idle) == s;
    Move1(c, s, i, call, Idle, s, LoadLast(n, now), 3);
    Move1(c, s, i, call, LoadLast(n, now), s, SwapLast(n, now, last, added), 2);
    Move1(c, s, i, call, SwapLast(n, now, last, added), s',
          if added > 0 then LoadRefill(n, now, added) else LoadTokens(n, now), 1);
  }

  /** The bucket is refilled: two steps. */
  lemma SoloRefill(c: Config, s: State, i: nat, call: Call, n: nat, now: nat, added: nat)
    requires i < |s.threads| && 0 <= s.available && s.available + added <= MAX64
    ensures Run(c, At(s, i, LoadRefill(n, now, added)), Turns(i, call, 2))
         == At(s.(available := Capped(c, s.available + added)), i, LoadTokens(n, now))
  {
    WrapIdle(s.available + added);
    Move1(c, s, i, call, LoadRefill(n, now, added), s, SwapRefill(n, now, added, s.available), 2);
    Move1(c, s, i, call, SwapRefill(n, now, added, s.available), s.(available := Capped(c, s.available + added)),
          LoadTokens(n, now), 1);
  }

  /** Both together: the bucket is at its level for the time `now`. */
  lemma {:induction false} SoloReach(c: Config, s: State, i: nat, n: nat, now: nat)
    requires n > 0 && Unwrapped(c, s, n, now) && i < |s.threads| && s.threads[i].Idle?
    ensures var last, level := s.lastUpdate, Level(c, s, now);
            Run(c, s, Turns(i, AllowN(n, now), if Refills(c, s, now) then 5 else 3))
            == At(s.(lastUpdate := if now > last then now else last, available := level), i, LoadTokens(n, now))
    ensures 0 <= Level(c, s, now) <= MAX64
  {
    var last, call := s.lastUpdate, AllowN(n, now);
    var s1 := s.(lastUpdate := if now > last then now else last);
    var added := Earned(c, s, now);
    EarnedIs(c, s, n, now);
    SoloClock(c, s, i, n, now, added);
    if added > 0 {
      SoloRefill(c, s1, i, call, n, now, added);
      TurnsAppend(c, s, i, call, 3, 2);
    }
  }

  /** The tokens are taken, or not: three steps, or one. */
  lemma SoloTake(c: Config, s: State, i: nat, call: Call, n: nat, now: nat)
    requires i < |s.threads| && n * PRECISION <= MAX64 && 0 <= s.available <= MAX64
    ensures Run(c, At(s, i, LoadTokens(n, now)), Turns(i, call, if s.available >= n * PRECISION then 3 else 1))
         == if s.available < n * PRECISION then At(s, i, Idle)
            else At(s.(available := s.available - n * PRECISION, lastConsumed := n,
                       granted := s.granted + n * PRECISION), i, Idle)
  {
    WrapNeverGains(n * PRECISION);
    if s.available < n * PRECISION {
      Move1(c, s, i, call, LoadTokens(n, now), s, Idle, 1);
    } else {
      WrapIdle(s.available - n * PRECISION);
      var s' := s.(available := s.available - n * PRECISION, granted := s.granted + n * PRECISION);
      Move1(c, s, i, call, LoadTokens(n, now), s, SwapTokens(n, now, s.available), 3);
      Move1(c, s, i, call, SwapTokens(n, now, s.available), s', StoreConsumed(n), 2);
      Move1(c, s', i, call, StoreConsumed(n), s'.(lastConsumed := n), Idle, 1);
    }
  }

  /**
    A request that runs through alone, whatever the other threads are in the middle of, is granted
    exactly if the bucket, refilled for the time that has passed and capped, holds that many tokens.
   */
  lemma {:induction false} SoloAllow(c: Config, s: State, i: nat, n: nat, now: nat)
    requires n > 0 && Unwrapped(c, s, n, now) && i < |s.threads| && s.threads[i].Idle?
    ensures var level := Level(c, s, now);
            var steps := 4 + (if Refills(c, s, now) then 2 else 0) + if level >= n * PRECISION then 2 else 0;
            var s' := s.(lastUpdate := if now > s.lastUpdate then now else s.lastUpdate, available := level);
            Run(c, s, Turns(i, AllowN(n, now), steps))
            == if level < n * PRECISION then s'
               else s'.(available := level - n * PRECISION, lastConsumed := n, granted := s.granted + n * PRECISION)
  {
    var s2 := s.(lastUpdate := if now > s.lastUpdate then now else s.lastUpdate, available := Level(c, s, now));
    SoloReach(c, s, i, n, now);
    SoloFinish(c, s, s2, i, AllowN(n, now), n, now, if Refills(c, s, now) then 5 else 3);
  }

  lemma {:induction false} SoloFinish(
    c: Config, s: State, s2: State, i: nat, call: Call, n: nat, now: nat, first: nat)
    requires i < |s.threads| && s.threads[i].Idle? && s2.threads == s.threads
    requires n * PRECISION <= MAX64 && 0 <= s2.available <= MAX64
    requires Run(c, s, Turns(i, call, first)) == At(s2, i, LoadTokens(n, now))
    ensures var rest := if s2.available >= n * PRECISION then 3 else 1;
            Run(c, s, Turns(i, call, first + rest))
            == if s2.available < n * PRECISION then s2
               else s2.(available := s2.available - n * PRECISION, lastConsumed := n,
                        granted := s2.granted + n * PRECISION)
  {
    TurnsAppend(c, s, i, call, first, if s2.available >= n * PRECISION then 3 else 1);
    SoloTake(c, s2, i, call, n, now);
    assert s.threads[i := Idle] == s.threads;
  }

  /** A return that runs through alone fills the bucket up to the burst and reduces the last grant. */
  lemma {:induction false} SoloPut(c: Config, s: State, i: nat, n: nat)
    requires n > 0 && c.Typed() && i < |s.threads| && s.threads[i].Idle?
    requires 0 <= s.available && s.available + n * PRECISION <= MAX64
    ensures var full := s.available + n * PRECISION;
            var next := if full < c.burst then full else c.burst;
            Run(c, s, Turns(i, PutBack(n), 5))
            == s.(available := next, returned := s.returned + next - s.available,
                  lastConsumed := if s.lastConsumed >= n then s.lastConsumed - n else 0)
  {
    assert At(s, i, Idle) == s;
    Move1(c, s, i, PutBack(n), Idle, s, LoadPut(n), 5);
    SoloReturn(c, s, i, PutBack(n), n);
  }

  lemma {:induction false} SoloReturn(c: Config, s: State, i: nat, call: Call, n: nat)
    requires c.Typed() && i < |s.threads| && 0 <= s.available && s.available + n * PRECISION <= MAX64
    ensures var full := s.available + n * PRECISION;
            var next := if full < c.burst then full else c.burst;
            Run(c, At(s, i, LoadPut(n)), Turns(i, call, 4))
            == At(s.(available := next, returned := s.returned + next - s.available,
                     lastConsumed := if s.lastConsumed >= n then s.lastConsumed - n else 0), i, Idle)
  {
    var full := s.available + n * PRECISION;
    var next := if full < c.burst then full else c.burst;
    assert Refilled(c, n, s.available) == next by {
      WrapNeverGains(n * PRECISION);
      WrapIdle(full);
    }
    var s1 := s.(available := next, returned := s.returned + next - s.available);
    Move1(c, s, i, call, LoadPut(n), s, SwapPut(n, s.available), 4);
    Move1(c, s, i, call, SwapPut(n, s.available), s1, LoadConsumed(n), 3);
    SoloReduce(c, s1, i, call, n);
  }

  /** The last grant is reduced: two steps. */
  lemma SoloReduce(c: Config, s: State, i: nat, call: Call, n: nat)
    requires i < |s.threads|
    ensures Run(c, At(s, i, LoadConsumed(n)), Turns(i, call, 2))
         == At(s.(lastConsumed := if s.lastConsumed >= n then s.lastConsumed - n else 0), i, Idle)
  {
    var left := if s.lastConsumed >= n then s.lastConsumed - n else 0;
    Move1(c, s, i, call, LoadConsumed(n), s, StoreReduced(n, s.lastConsumed), 2);
    Move1(c, s, i, call, StoreReduced(n, s.lastConsumed), s.(lastConsumed := left), Idle, 1);
  }

  /** Returning all but `used` tokens of the last grant leaves `used` as the last grant. */
  lemma {:induction false} SoloPutFromLast(c: Config, s: State, i: nat, used: nat)
    requires c.Typed() && i < |s.threads| && s.threads[i].Idle? && s.lastConsumed > used
    requires 0 <= s.available && s.available + (s.lastConsumed - used) * PRECISION <= MAX64
    ensures var full := s.available + (s.lastConsumed - used) * PRECISION;
            var next := if full < c.burst then full else c.burst;
            Run(c, s, Turns(i, PutBackFromLast(used), 6))
            == s.(available := next, returned := s.returned + next - s.available, lastConsumed := used)
  {
    var call, n := PutBackFromLast(used), s.lastConsumed - used;
    assert At(s, i, Idle) == s;
    Move1(c, s, i, call, Idle, s, LoadFromLast(used), 6);
    Move1(c, s, i, call, LoadFromLast(used), s, LoadPut(n), 5);
    SoloReturn(c, s, i, call, n);
    assert s.threads[i := Idle] == s.threads;
  }

  /** A grant that is returned in full leaves the bucket as full as if it had not been asked for. */
  lemma {:induction false} GrantAndReturn(c: Config, s: State, i: nat, n: nat, now: nat)
    requires n > 0 && Unwrapped(c, s, n, now) && i < |s.threads| && s.threads[i].Idle?
    requires Level(c, s, now) >= n * PRECISION
    ensures var steps := 6 + if Refills(c, s, now) then 2 else 0;
            var s' := Run(c, s, Turns(i, AllowN(n, now), steps) + Turns(i, PutBackFromLast(0), 6));
            && s'.available == Level(c, s, now) && s'.lastConsumed == 0 && s'.threads == s.threads
            && s'.granted - s.granted == s'.returned - s.returned == n * PRECISION
  {
    var steps := 6 + if Refills(c, s, now) then 2 else 0;
    SoloAllow(c, s, i, n, now);
    SoloPutFromLast(c, Run(c, s, Turns(i, AllowN(n, now), steps)), i, 0);
    RunAppend(c, s, Turns(i, AllowN(n, now), steps), Turns(i, PutBackFromLast(0), 6));
  }

  /** Calls without effect: nothing is asked for, nothing is returned, or all of the last grant was used. */
  lemma IdleCalls(c: Config, s: State, i: nat, n: int, now: nat)
    requires i < |s.threads| && s.threads[i].Idle?
    ensures n <= 0 ==> Run(c, s, Turns(i, AllowN(n, now), 1)) == s == Run(c, s, Turns(i, PutBack(n), 1))
    ensures n < 0 ==> Run(c, s, Turns(i, PutBackFromLast(n), 1)) == s
    ensures 0 <= n && s.lastConsumed <= n ==> Run(c, s, Turns(i, PutBackFromLast(n), 2)) == s
  {
    assert At(s, i, Idle) == s;
    if n <= 0 {
      Move1(c, s, i, AllowN(n, now), Idle, s, Idle, 1);
      Move1(c, s, i, PutBack(n), Idle, s, Idle, 1);
    }
    if n < 0 {
      Move1(c, s, i, PutBackFromLast(n), Idle, s, Idle, 1);
    } else if s.lastConsumed <= n {
      Move1(c, s, i, PutBackFromLast(n), Idle, s, LoadFromLast(n), 2);
      Move1(c, s, i, PutBackFromLast(n), LoadFromLast(n), s, Idle, 1);
    }
  }

  // ----- what a lost compare-and-swap may not lose

  /** A request for n tokens is under way. */
  predicate Asks(t: Thread, n: nat) {
    match t
    case LoadLast(m, _) => m == n
    case SwapLast(m, _, _, _) => m == n
    case LoadRefill(m, _, _) => m == n
    case SwapRefill(m, _, _, _) => m == n
    case LoadTokens(m, _) => m == n
    case SwapTokens(m, _, _) => m == n
    case _ => false
  }

  predicate Returns(t: Thread, n: nat) { (t.LoadPut? || t.SwapPut?) && t.n == n }

  /** A request goes on until it takes its tokens, or finds too few of them: nothing else ends it. */
  lemma RequestEnds(c: Config, s: State, i: nat, call: Call, n: nat)
    requires c.Sane() && Inv(c, s) && i < |s.threads| && Asks(s.threads[i], n)
    ensures var s' := Next(c, s, i, call);
            || (Asks(s'.threads[i], n) && s'.granted == s.granted)
            || (s'.threads[i] == Idle && s' == s.(threads := s'.threads) && s.available < n * PRECISION)
            || (s'.threads[i] == StoreConsumed(n) && s'.available == s.available - n * PRECISION >= 0
                && s'.granted == s.granted + n * PRECISION)
  {
    assert ThreadOk(c, s.threads[i]);
    TokensExact(n);
    WrapNeverGains(n * PRECISION);
    if s.threads[i].SwapTokens? && s.threads[i].seen == s.available {
      WrapIdle(s.available - Tokens(n));
    }
  }

  /** A return goes on until it has landed. */
  lemma ReturnEnds(c: Config, s: State, i: nat, call: Call, n: nat)
    requires i < |s.threads| && Returns(s.threads[i], n)
    ensures var s' := Next(c, s, i, call);
            || (Returns(s'.threads[i], n) && s' == s.(threads := s'.threads))
            || (s'.threads[i] == LoadConsumed(n) && s'.available == Refilled(c, n, s.available))
  {
  }

  /** What step i puts in flight: the refill of the thread that moves the clock. */
  function Gain(s: State, i: nat): int {
    if i < |s.threads| && s.threads[i].SwapLast? && s.threads[i].now > s.threads[i].last == s.lastUpdate
       && s.threads[i].added > 0 then s.threads[i].added
    else 0
  }

  /** What it spills: the part of a refill that does not fit the bucket. */
  function Spill(c: Config, s: State, i: nat): int {
    if i < |s.threads| && s.threads[i].SwapRefill? && s.threads[i].seen == s.available
       && s.available + s.threads[i].added > c.burst then s.available + s.threads[i].added - c.burst
    else 0
  }

  /** Gains less spills of a whole run. */
  function Earnings(c: Config, s: State, moves: seq<Move>): int
    decreases |moves|
  {
    if moves == [] then 0
    else Gain(s, moves[0].i) - Spill(c, s, moves[0].i)
         + Earnings(c, Next(c, s, moves[0].i, moves[0].call), moves[1..])
  }

  /** What is granted, left and in flight, less what was returned. */
  ghost function Account(s: State): int { s.granted - s.returned + s.available + TotalInFlight(s.threads) }

  lemma StepAccounts(c: Config, s: State, i: nat, call: Call)
    requires c.Sane() && Inv(c, s)
    ensures Account(Next(c, s, i, call)) == Account(s) + Gain(s, i) - Spill(c, s, i)
  {
    if i < |s.threads| {
      var s' := Next(c, s, i, call);
      assert ThreadOk(c, s.threads[i]);
      InFlightUpdate(s.threads, i, s'.threads[i]);
      assert s'.threads == s.threads[i := s'.threads[i]];
      match s.threads[i]
      case SwapRefill(n, now, added, seen) => WrapIdle(s.available + added);
      case SwapTokens(n, now, seen) =>
        if seen == s.available {
          TokensExact(n);
          WrapIdle(s.available - Tokens(n));
        }
      case _ =>
    }
  }

  /** Not a token is lost or made up in any interleaving: the account grows by what is earned and not spilled. */
  lemma {:induction false} TokensAreConserved(c: Config, s: State, moves: seq<Move>)
    requires c.Sane() && Inv(c, s) && forall k :: 0 <= k < |moves| ==> SaneCall(c, moves[k].call)
    ensures Account(Run(c, s, moves)) == Account(s) + Earnings(c, s, moves)
    decreases |moves|
  {
    if moves != [] {
      StepAccounts(c, s, moves[0].i, moves[0].call);
      StepInv(c, s, moves[0].i, moves[0].call);
      TokensAreConserved(c, Next(c, s, moves[0].i, moves[0].call), moves[1..]);
    }
  }
}
