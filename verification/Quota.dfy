/**
  The quota counter as a state machine over its atomic operations: loads, an atomic add, a swap to
  zero, and the submission of what was swapped out.
 */
module Quota {
  import opened Int64

  const NO_LIMIT := -1

  /** `used` is read once, when the quota is created, and never again. */
  datatype Config = Config(used: int, maxLimit: int)

  datatype Call = AddUsage(value: int) | CommitUsage | Reset

  datatype Thread =
    | Idle
    | Adding(value: int)          // passed the check, about to add
    | Checking                    // CommitUsage: about to load the counter
    | Swapping
    | Submitting(amount: int)     // swapped out, not yet handed to storage

  /** The counter, the threads, and history: values accepted, submitted, dropped by Reset, and wrap-arounds. */
  datatype State = State(
    usage: int, threads: seq<Thread>, accepted: int, submitted: int, dropped: int, wraps: int)

  predicate Exceeded(c: Config, usage: int) {
    Wrap64(usage + c.used) > c.maxLimit && c.maxLimit != NO_LIMIT
  }

  function Next(c: Config, s: State, i: nat, call: Call): State {
    if i >= |s.threads| then s
    else match s.threads[i]
      case Idle =>
        (match call
         case AddUsage(v) =>
           if v == 0 then s
           else s.(threads := s.threads[i := if Exceeded(c, s.usage) then Checking else Adding(v)])
         case CommitUsage => s.(threads := s.threads[i := Checking])
         case Reset => s.(usage := 0, dropped := s.dropped + s.usage))
      case Adding(v) =>
        var sum := Wrap64(s.usage + v);
        s.(usage := sum, threads := s.threads[i := Idle], accepted := s.accepted + v,
           wraps := s.wraps + (s.usage + v - sum) / TWO64)
      case Checking => s.(threads := s.threads[i := if s.usage == 0 then Idle else Swapping])
      case Swapping => s.(usage := 0, threads := s.threads[i := Submitting(s.usage)])
      case Submitting(x) => s.(threads := s.threads[i := Idle], submitted := s.submitted + x)
  }

  datatype Move = Move(i: nat, call: Call)

  function Run(c: Config, s: State, moves: seq<Move>): State
    decreases |moves|
  {
    if moves == [] then s else Run(c, Next(c, s, moves[0].i, moves[0].call), moves[1..])
  }

  function Initial(threads: nat): State { State(0, seq(threads, _ => Idle), 0, 0, 0, 0) }

  // ----- sums over the threads

  function Out(t: Thread): int { if t.Submitting? then t.amount else 0 }

  function Sum(ts: seq<Thread>, f: Thread -> int): int {
    if ts == [] then 0 else f(ts[0]) + Sum(ts[1..], f)
  }

  lemma {:induction false} SumUpdate(ts: seq<Thread>, f: Thread -> int, i: nat, t: Thread)
    requires i < |ts|
    ensures Sum(ts[i := t], f) == Sum(ts, f) - f(ts[i]) + f(t)
  {
    if i > 0 {
      SumUpdate(ts[1..], f, i - 1, t);
      assert ts[i := t][1..] == ts[1..][i - 1 := t];
    } else {
      assert ts[i := t][1..] == ts[1..];
    }
  }

  lemma {:induction false} SumBound(ts: seq<Thread>, f: Thread -> int, lo: int, hi: int)
    requires forall i :: 0 <= i < |ts| ==> lo <= f(ts[i]) <= hi
    ensures |ts| * lo <= Sum(ts, f) <= |ts| * hi
  {
    if ts != [] {
      assert lo <= f(ts[0]) <= hi;
      SumBound(ts[1..], f, lo, hi);
      assert |ts| * lo == |ts[1..]| * lo + lo && |ts| * hi == |ts[1..]| * hi + hi;
    }
  }

  // ----- conservation

  ghost predicate Conserved(s: State) {
    s.accepted == s.submitted + Sum(s.threads, Out) + s.dropped + s.usage + s.wraps * TWO64
  }

  lemma {:induction false} StepConserves(c: Config, s: State, i: nat, call: Call)
    requires Conserved(s)
    ensures Conserved(Next(c, s, i, call))
  {
    if i < |s.threads| {
      var s' := Next(c, s, i, call);
      SumUpdate(s.threads, Out, i, s'.threads[i]);
      assert s'.threads == s.threads[i := s'.threads[i]];
      if s.threads[i].Adding? {
        var x := s.usage + s.threads[i].value;
        WrapIsExact(x);
        assert s'.wraps * TWO64 == s.wraps * TWO64 + (x - Wrap64(x)) / TWO64 * TWO64;
      }
    }
  }

  lemma {:induction false} RunConserves(c: Config, s: State, moves: seq<Move>)
    requires Conserved(s)
    ensures Conserved(Run(c, s, moves))
    decreases |moves|
  {
    if moves != [] {
      StepConserves(c, s, moves[0].i, moves[0].call);
      RunConserves(c, Next(c, s, moves[0].i, moves[0].call), moves[1..]);
    }
  }

  lemma {:induction false} SumIdle(n: nat, f: Thread -> int)
    requires f(Idle) == 0
    ensures Sum(seq(n, _ => Idle), f) == 0
  {
    if n > 0 {
      assert seq(n, _ => Idle)[1..] == seq(n - 1, _ => Idle);
      SumIdle(n - 1, f);
    }
  }

  /** No usage is lost or counted twice, in any interleaving. */
  lemma {:induction false} UsageIsConserved(c: Config, threads: nat, moves: seq<Move>)
    ensures Conserved(Run(c, Initial(threads), moves))
  {
    SumIdle(threads, Out);
    RunConserves(c, Initial(threads), moves);
  }

  // ----- the limit

  /** Values of at most `top`, and numbers small enough that no addition of them wraps. */
  ghost predicate Modest(c: Config, threads: nat, top: nat) {
    0 <= c.used <= MAX64 && 0 <= c.maxLimit && c.maxLimit + threads * top <= MAX64
  }

  /** Usage may also be given back, up to `low` per call. */
  predicate ModestCall(call: Call, top: nat, low: nat) { call.AddUsage? ==> call.value + low >= 0 && call.value <= top }

  function Growth(t: Thread): int { if t.Adding? && t.value > 0 then t.value else 0 }

  /** After `steps` steps: usage is not too negative, and limit and pending growth cover it from above. */
  ghost predicate Limited(c: Config, s: State, top: nat, low: nat, steps: nat) {
    && s.usage + low * steps >= 0
    && (forall i :: 0 <= i < |s.threads| && s.threads[i].Adding? ==>
          s.threads[i].value + low >= 0 && s.threads[i].value <= top)
    && (if Exceeded(c, 0) then s.usage == 0 && forall i :: 0 <= i < |s.threads| ==> !s.threads[i].Adding?
        else c.used + s.usage + Sum(s.threads, Growth) <= c.maxLimit + |s.threads| * top)
  }

  lemma GrowthBound(ts: seq<Thread>, top: nat)
    requires forall i :: 0 <= i < |ts| && ts[i].Adding? ==> ts[i].value <= top
    ensures 0 <= Sum(ts, Growth) <= |ts| * top
  {
    SumBound(ts, Growth, 0, top);
  }

  /** A check passed before the limit: the value it lets through is covered. */
  lemma PassedCheck(c: Config, s: State, i: nat, v: int, top: nat, low: nat, steps: nat)
    requires Modest(c, |s.threads|, top) && Limited(c, s, top, low, steps) && low * steps <= MAX64 && v <= top
    requires i < |s.threads| && s.threads[i].Idle? && !Exceeded(c, s.usage)
    ensures !Exceeded(c, 0)
    ensures c.used + s.usage + Sum(s.threads[i := Adding(v)], Growth) <= c.maxLimit + |s.threads| * top
  {
    WrapIsExact(s.usage + c.used);
    SumUpdate(s.threads, Growth, i, Adding(v));
    SumUpdate(s.threads, Growth, i, Adding(top));
    GrowthBound(s.threads[i := Adding(top)], top);
    GrowthBound(s.threads, top);
  }

  /** The addition itself. */
  lemma AddLimited(c: Config, s: State, i: nat, call: Call, top: nat, low: nat, steps: nat)
    requires Modest(c, |s.threads|, top) && Limited(c, s, top, low, steps) && low * steps + low <= MAX64
    requires i < |s.threads| && s.threads[i].Adding?
    ensures Limited(c, Next(c, s, i, call), top, low, steps + 1)
  {
    var v := s.threads[i].value;
    GrowthBound(s.threads, top);
    SumUpdate(s.threads, Growth, i, Idle);
    GrowthBound(s.threads[i := Idle], top);
    WrapIsExact(s.usage + v);
    assert low * (steps + 1) == low * steps + low;
  }

  lemma StepLimited(c: Config, s: State, i: nat, call: Call, top: nat, low: nat, steps: nat)
    requires Modest(c, |s.threads|, top) && ModestCall(call, top, low) && low * steps + low <= MAX64
    requires Limited(c, s, top, low, steps)
    ensures |Next(c, s, i, call).threads| == |s.threads| && Limited(c, Next(c, s, i, call), top, low, steps + 1)
  {
    assert low * (steps + 1) == low * steps + low;
    if i < |s.threads| {
      var t, s' := s.threads[i], Next(c, s, i, call);
      if t.Adding? {
        AddLimited(c, s, i, call, top, low, steps);
      } else if t.Idle? && call.AddUsage? && call.value != 0 && !Exceeded(c, s.usage) {
        PassedCheck(c, s, i, call.value, top, low, steps);
      } else {
        QuietLimited(c, s, s', i, top, low, steps);
      }
    }
  }

  /** A step that adds nothing: the counter stays, or goes back to zero. */
  lemma QuietLimited(c: Config, s: State, s': State, i: nat, top: nat, low: nat, steps: nat)
    requires Modest(c, |s.threads|, top) && Limited(c, s, top, low, steps) && i < |s.threads|
    requires s'.usage == s.usage || s'.usage == 0
    requires |s'.threads| == |s.threads| && s'.threads == s.threads[i := s'.threads[i]]
    requires !s.threads[i].Adding? && !s'.threads[i].Adding?
    ensures Limited(c, s', top, low, steps + 1)
  {
    assert low * (steps + 1) == low * steps + low;
    assert Growth(s'.threads[i]) == 0 == Growth(s.threads[i]);
    SumUpdate(s.threads, Growth, i, s'.threads[i]);
    GrowthBound(s.threads, top);
    OpenLimit(c);
  }

  lemma OpenLimit(c: Config)
    requires 0 <= c.used <= MAX64 && 0 <= c.maxLimit
    ensures Exceeded(c, 0) <==> c.used > c.maxLimit
  {
    WrapIsExact(c.used);
  }

  lemma {:induction false} RunLimited(c: Config, s: State, moves: seq<Move>, top: nat, low: nat, steps: nat)
    requires Modest(c, |s.threads|, top) && Limited(c, s, top, low, steps) && low * (steps + |moves|) <= MAX64
    requires forall k :: 0 <= k < |moves| ==> ModestCall(moves[k].call, top, low)
    ensures var n := steps + |moves|;
            |Run(c, s, moves).threads| == |s.threads| && Limited(c, Run(c, s, moves), top, low, n)
    decreases |moves|
  {
    if moves != [] {
      Fewer(low, steps, |moves|);
      StepLimited(c, s, moves[0].i, moves[0].call, top, low, steps);
      RunLimited(c, Next(c, s, moves[0].i, moves[0].call), moves[1..], top, low, steps + 1);
    }
  }

  lemma Fewer(low: nat, steps: nat, n: nat)
    requires n > 0 && low * (steps + n) <= MAX64
    ensures low * steps + low <= MAX64
  {
    assert low * (steps + n) == low * steps + low * n;
    assert low * n >= low;
  }

  /**
    Between commits the limit is overrun by at most one value per thread: for a single thread, by at
    most the largest value. Usage may be given back too, as long as that cannot add up to 2^63.
   */
  lemma {:induction false} OverrunIsBounded(c: Config, threads: nat, moves: seq<Move>, top: nat, low: nat)
    requires Modest(c, threads, top) && low * |moves| <= MAX64
    requires forall k :: 0 <= k < |moves| ==> ModestCall(moves[k].call, top, low)
    ensures var s := Run(c, Initial(threads), moves);
            s.usage == 0 || c.used + s.usage <= c.maxLimit + threads * top
  {
    SumIdle(threads, Growth);
    OpenLimit(c);
    RunLimited(c, Initial(threads), moves, top, low, 0);
    var s := Run(c, Initial(threads), moves);
    if !Exceeded(c, 0) { GrowthBound(s.threads, top); }
  }

  // ----- across commits

  /** A quota that is exceeded from the start: nothing is ever accepted. */
  ghost predicate Closed(s: State) {
    s.usage == 0 && s.accepted == 0 && forall i :: 0 <= i < |s.threads| ==> !s.threads[i].Adding?
  }

  lemma {:induction false} StaysClosed(c: Config, s: State, moves: seq<Move>)
    requires Exceeded(c, 0) && Closed(s)
    ensures Closed(Run(c, s, moves))
    decreases |moves|
  {
    if moves != [] {
      StaysClosed(c, Next(c, s, moves[0].i, moves[0].call), moves[1..]);
    }
  }

  lemma {:induction false} RunAppend(c: Config, s: State, a: seq<Move>, b: seq<Move>)
    ensures Run(c, s, a + b) == Run(c, Run(c, s, a), b)
    decreases |a|
  {
    if a == [] {
      assert a + b == b;
    } else {
      assert (a + b)[1..] == a[1..] + b;
      RunAppend(c, Next(c, s, a[0].i, a[0].call), a[1..], b);
    }
  }

  /** n steps of thread 0 that keeps making one call. */
  function Insist(call: Call, n: nat): seq<Move> { seq(n, _ => Move(0, call)) }

  lemma InsistStep(c: Config, s: State, call: Call, n: nat)
    requires n > 0
    ensures Run(c, s, Insist(call, n)) == Run(c, Next(c, s, 0, call), Insist(call, n - 1))
  {
    assert Insist(call, n)[1..] == Insist(call, n - 1);
  }

  /** All threads idle and nothing on the counter, after `total` has been accepted and submitted. */
  function Cycle(threads: nat, total: nat): State { State(0, seq(threads, _ => Idle), total, total, 0, 0) }

  /** Two steps: the value passes the check and is added. */
  lemma AddOnce(c: Config, threads: nat, total: nat, v: nat)
    requires threads > 0 && 0 < v <= MAX64 && !Exceeded(c, 0)
    ensures Run(c, Cycle(threads, total), Insist(AddUsage(v), 2))
         == Cycle(threads, total).(usage := v, accepted := total + v)
  {
    var s0, call := Cycle(threads, total), AddUsage(v);
    var s1 := s0.(threads := s0.threads[0 := Adding(v)]);
    var s2 := s0.(usage := v, accepted := total + v);
    WrapIsExact(0 + v);
    assert s1.threads[0 := Idle] == s0.threads;
    assert Next(c, s0, 0, call) == s1;
    assert Next(c, s1, 0, call) == s2;
    InsistStep(c, s0, call, 2);
    InsistStep(c, s1, call, 1);
  }

  /** Four steps: the counter is checked, swapped out and submitted. */
  lemma CommitOnce(c: Config, threads: nat, total: nat, v: nat)
    requires threads > 0 && v > 0
    ensures Run(c, Cycle(threads, total).(usage := v, accepted := total + v), Insist(CommitUsage, 4))
         == Cycle(threads, total + v)
  {
    var idle := Cycle(threads, total).threads;
    var s0, call := Cycle(threads, total).(usage := v, accepted := total + v), CommitUsage;
    var s1, s2 := s0.(threads := idle[0 := Checking]), s0.(threads := idle[0 := Swapping]);
    var s3 := s0.(usage := 0, threads := idle[0 := Submitting(v)]);
    assert s1.threads[0 := Swapping] == s2.threads && s2.threads[0 := Submitting(v)] == s3.threads;
    assert s3.threads[0 := Idle] == idle;
    assert Next(c, s0, 0, call) == s1 && Next(c, s1, 0, call) == s2;
    assert Next(c, s2, 0, call) == s3 && Next(c, s3, 0, call) == Cycle(threads, total + v);
    InsistStep(c, s0, call, 4);
    InsistStep(c, s1, call, 3);
    InsistStep(c, s2, call, 2);
    InsistStep(c, s3, call, 1);
  }

  /** Adding and committing in turn, `rounds` times. */
  function Rounds(v: int, rounds: nat): seq<Move> {
    if rounds == 0 then [] else Insist(AddUsage(v), 2) + (Insist(CommitUsage, 4) + Rounds(v, rounds - 1))
  }

  lemma {:induction false} Cycles(c: Config, threads: nat, total: nat, v: nat, rounds: nat)
    requires threads > 0 && 0 < v <= MAX64 && !Exceeded(c, 0)
    ensures Run(c, Cycle(threads, total), Rounds(v, rounds)) == Cycle(threads, total + v * rounds)
    decreases rounds
  {
    if rounds > 0 {
      var s := Cycle(threads, total).(usage := v, accepted := total + v);
      AddOnce(c, threads, total, v);
      CommitOnce(c, threads, total, v);
      Cycles(c, threads, total + v, v, rounds - 1);
      RunAppend(c, s, Insist(CommitUsage, 4), Rounds(v, rounds - 1));
      RunAppend(c, Cycle(threads, total), Insist(AddUsage(v), 2), Insist(CommitUsage, 4) + Rounds(v, rounds - 1));
      assert total + v + v * (rounds - 1) == total + v * rounds;
    }
  }

  /** Some run accepts n units or more. */
  ghost predicate Reaches(c: Config, threads: nat, n: nat) {
    exists moves: seq<Move> :: Run(c, Initial(threads), moves).accepted >= n
  }

  ghost predicate Unbounded(c: Config, threads: nat) { forall n: nat :: Reaches(c, threads, n) }

  /**
    Across commits a quota either accepts nothing or has no bound at all: `used` is never refreshed,
    so whatever is open at the start opens again after every commit.
   */
  lemma {:induction false} UnboundedIffOpen(c: Config, threads: nat)
    requires threads > 0
    ensures Unbounded(c, threads) <==> !Exceeded(c, 0)
    ensures Exceeded(c, 0) ==> forall moves: seq<Move> :: Run(c, Initial(threads), moves).accepted == 0
  {
    if Exceeded(c, 0) {
      forall moves: seq<Move> ensures Run(c, Initial(threads), moves).accepted == 0 {
        StaysClosed(c, Initial(threads), moves);
      }
      assert !Reaches(c, threads, 1);
    } else {
      forall n: nat ensures Reaches(c, threads, n) {
        Cycles(c, threads, 0, 1, n);
        assert Run(c, Initial(threads), Rounds(1, n)).accepted == n;
      }
    }
  }

  /** For example, a quota of 10 accepts 11 units any number of times. */
  lemma {:induction false} TenAcceptsEleven(rounds: nat)
    ensures Run(Config(0, 10), Initial(1), Rounds(11, rounds)).accepted == 11 * rounds
  {
    Cycles(Config(0, 10), 1, 0, 11, rounds);
  }

  // ----- calls that nobody interrupts

  /** n steps of one thread; an idle thread starts the call. */
  function Turns(i: nat, call: Call, n: nat): seq<Move> { seq(n, _ => Move(i, call)) }

  function At(s: State, i: nat, t: Thread): State
    requires i < |s.threads|
  {
    s.(threads := s.threads[i := t])
  }

  /** Thread i of s, standing at t, takes a step to t' that makes s into s'. */
  predicate Steps(c: Config, s: State, i: nat, call: Call, t: Thread, s': State, t': Thread) {
    && i < |s.threads| && s'.threads == s.threads
    && Next(c, At(s, i, t), i, call) == At(s', i, t')
  }

  lemma Turn(c: Config, s: State, i: nat, call: Call, t: Thread, s': State, t': Thread, n: nat)
    requires n > 0 && Steps(c, s, i, call, t, s', t')
    ensures Run(c, At(s, i, t), Turns(i, call, n)) == Run(c, At(s', i, t'), Turns(i, call, n - 1))
  {
    assert Turns(i, call, n)[1..] == Turns(i, call, n - 1);
  }

  /** From the check on, a commit empties the counter into storage: three steps, or one if it is empty. */
  lemma SoloChecking(c: Config, s: State, i: nat, call: Call)
    requires i < |s.threads|
    ensures Run(c, At(s, i, Checking), Turns(i, call, if s.usage == 0 then 1 else 3))
         == At(s.(usage := 0, submitted := s.submitted + s.usage), i, Idle)
  {
    if s.usage == 0 {
      Turn(c, s, i, call, Checking, s, Idle, 1);
    } else {
      var out := s.(usage := 0);
      Turn(c, s, i, call, Checking, s, Swapping, 3);
      Turn(c, s, i, call, Swapping, out, Submitting(s.usage), 2);
      Turn(c, out, i, call, Submitting(s.usage), out.(submitted := s.submitted + s.usage), Idle, 1);
    }
  }

  /** A commit that runs through alone: what was on the counter is submitted, all of it, and the counter is zero. */
  lemma SoloCommit(c: Config, s: State, i: nat)
    requires i < |s.threads| && s.threads[i].Idle?
    ensures Run(c, s, Turns(i, CommitUsage, if s.usage == 0 then 2 else 4))
         == s.(usage := 0, submitted := s.submitted + s.usage)
  {
    assert At(s, i, Idle) == s;
    Turn(c, s, i, CommitUsage, Idle, s, Checking, if s.usage == 0 then 2 else 4);
    SoloChecking(c, s, i, CommitUsage);
  }

  /** An addition that runs through alone is refused exactly beyond the limit, and then commits what is there. */
  lemma SoloAdd(c: Config, s: State, i: nat, v: int)
    requires i < |s.threads| && s.threads[i].Idle? && v != 0
    requires -MAX64 <= s.usage + c.used <= MAX64 && -MAX64 <= s.usage + v <= MAX64
    ensures var refused := c.maxLimit != -1 && s.usage + c.used > c.maxLimit;
            Run(c, s, Turns(i, AddUsage(v), if refused && s.usage != 0 then 4 else 2))
            == if refused then s.(usage := 0, submitted := s.submitted + s.usage)
               else s.(usage := s.usage + v, accepted := s.accepted + v)
  {
    var call := AddUsage(v);
    assert At(s, i, Idle) == s;
    WrapIdle(s.usage + c.used);
    WrapIdle(s.usage + v);
    if Exceeded(c, s.usage) {
      Turn(c, s, i, call, Idle, s, Checking, if s.usage == 0 then 2 else 4);
      SoloChecking(c, s, i, call);
    } else {
      Turn(c, s, i, call, Idle, s, Adding(v), 2);
      Turn(c, s, i, call, Adding(v), s.(usage := s.usage + v, accepted := s.accepted + v), Idle, 1);
    }
  }

  /** Adding nothing changes nothing; a reset drops what is on the counter. */
  lemma SoloRest(c: Config, s: State, i: nat)
    requires i < |s.threads| && s.threads[i].Idle?
    ensures Run(c, s, Turns(i, AddUsage(0), 1)) == s
    ensures Run(c, s, Turns(i, Reset, 1)) == s.(usage := 0, dropped := s.dropped + s.usage)
  {
    assert At(s, i, Idle) == s;
    Turn(c, s, i, AddUsage(0), Idle, s, Idle, 1);
    Turn(c, s, i, Reset, Idle, s.(usage := 0, dropped := s.dropped + s.usage), Idle, 1);
  }
}
