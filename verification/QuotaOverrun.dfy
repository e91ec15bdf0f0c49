/**
  How far the quota counter can run past its limit between commits: by at most one value per
  thread, exactly unless the sum in the check can wrap while the counter itself still can grow.
 */
module QuotaOverrun {
  import opened Int64
  import opened Quota

  /** Calls that add between 0 and `top`, or commit, or reset. */
  ghost predicate Small(moves: seq<Move>, top: nat) {
    forall k :: 0 <= k < |moves| ==> ModestCall(moves[k].call, top, 0)
  }

  /** The counter is empty, or past the limit by at most one value per thread. */
  predicate Covered(c: Config, threads: nat, top: nat, usage: int) {
    usage == 0 || c.used + usage <= c.maxLimit + threads * top
  }

  /** So it is after every run of such calls. */
  ghost predicate AlwaysCovered(c: Config, threads: nat, top: nat) {
    forall moves: seq<Move> :: Small(moves, top) ==> Covered(c, threads, top, Run(c, Initial(threads), moves).usage)
  }

  // ----- where it holds

  /** The counter is an int64. */
  lemma {:induction false} UsageFits(c: Config, s: State, moves: seq<Move>)
    requires s.usage <= MAX64
    ensures Run(c, s, moves).usage <= MAX64
    decreases |moves|
  {
    if moves != [] {
      UsageFits(c, Next(c, s, moves[0].i, moves[0].call), moves[1..]);
    }
  }

  lemma {:induction false} CoveredIf(c: Config, threads: nat, top: nat, moves: seq<Move>)
    requires 0 <= c.used <= MAX64 && 0 <= c.maxLimit && Small(moves, top)
    requires c.used > c.maxLimit || c.maxLimit + threads * top <= MAX64 || c.used + MAX64 <= c.maxLimit + threads * top
    ensures Covered(c, threads, top, Run(c, Initial(threads), moves).usage)
  {
    if c.used > c.maxLimit {
      OpenLimit(c);
      StaysClosed(c, Initial(threads), moves);
    } else if c.maxLimit + threads * top <= MAX64 {
      OverrunIsBounded(c, threads, moves, top, 0);
    } else {
      UsageFits(c, Initial(threads), moves);
    }
  }

  // ----- where it fails

  /** Counter u; threads lo to hi - 1 have passed the check with v, the others are idle. */
  ghost predicate Shows(s: State, threads: nat, u: int, lo: nat, hi: nat, v: int) {
    && s.usage == u && |s.threads| == threads
    && forall i :: 0 <= i < threads ==> s.threads[i] == if lo <= i < hi then Adding(v) else Idle
  }

  lemma RunOne(c: Config, s: State, i: nat, call: Call)
    ensures Run(c, s, [Move(i, call)]) == Next(c, s, i, call)
  {
    var m := [Move(i, call)];
    assert m[1..] == [];
    assert Run(c, Next(c, s, i, call), []) == Next(c, s, i, call);
  }

  /** One thread passes the check. */
  lemma Pass(c: Config, s: State, threads: nat, u: int, hi: nat, v: int) returns (go: seq<Move>)
    requires Shows(s, threads, u, 0, hi, v) && hi < threads && v > 0 && !Exceeded(c, u)
    ensures go == [Move(hi, AddUsage(v))] && Shows(Run(c, s, go), threads, u, 0, hi + 1, v)
  {
    go := [Move(hi, AddUsage(v))];
    RunOne(c, s, hi, AddUsage(v));
  }

  /** One thread adds what it passed with. */
  lemma Add(c: Config, s: State, threads: nat, u: int, lo: nat, hi: nat, v: int) returns (go: seq<Move>)
    requires Shows(s, threads, u, lo, hi, v) && lo < hi <= threads && 0 <= u && v > 0 && u + v <= MAX64
    ensures go == [Move(lo, AddUsage(v))] && Shows(Run(c, s, go), threads, u + v, lo + 1, hi, v)
  {
    go := [Move(lo, AddUsage(v))];
    RunOne(c, s, lo, AddUsage(v));
    WrapIsExact(u + v);
  }

  /** Thread 0 adds 1. */
  lemma AddOne(c: Config, s: State, threads: nat, u: int, x: int, y: int) returns (go: seq<Move>)
    requires Shows(s, threads, u, 0, 0, x) && threads > 0 && 0 <= u < MAX64 && !Exceeded(c, u)
    ensures Small(go, 1) && Shows(Run(c, s, go), threads, u + 1, 0, 0, y)
  {
    assert Shows(s, threads, u, 0, 0, 1);
    var first := Pass(c, s, threads, u, 0, 1);
    var second := Add(c, Run(c, s, first), threads, u, 0, 1, 1);
    go := first + second;
    RunAppend(c, s, first, second);
  }

  /** Ones up to the limit: each of them passes the check. */
  lemma {:induction false} AddOnes(c: Config, s: State, threads: nat, u: nat, v: int) returns (go: seq<Move>)
    requires 0 <= c.used && c.maxLimit <= MAX64 && threads > 0
    requires c.used + u <= c.maxLimit && Shows(s, threads, u, 0, 0, v)
    ensures Small(go, 1) && Shows(Run(c, s, go), threads, c.maxLimit - c.used, 0, 0, v)
    decreases c.maxLimit - c.used - u
  {
    if c.used + u == c.maxLimit {
      go := [];
    } else {
      WrapIsExact(u + c.used);
      var one := AddOne(c, s, threads, u, v, v);
      var more := AddOnes(c, Run(c, s, one), threads, u + 1, v);
      go := one + more;
      RunAppend(c, s, one, more);
    }
  }

  lemma {:induction false} PassAll(c: Config, s: State, threads: nat, u: int, hi: nat, v: nat) returns (go: seq<Move>)
    requires Shows(s, threads, u, 0, hi, v) && hi <= threads && v > 0 && !Exceeded(c, u)
    ensures Small(go, v) && Shows(Run(c, s, go), threads, u, 0, threads, v)
    decreases threads - hi
  {
    if hi == threads {
      go := [];
    } else {
      var one := Pass(c, s, threads, u, hi, v);
      var more := PassAll(c, Run(c, s, one), threads, u, hi + 1, v);
      go := one + more;
      RunAppend(c, s, one, more);
    }
  }

  lemma {:induction false} AddAll(c: Config, s: State, threads: nat, u: nat, lo: nat, v: nat) returns (go: seq<Move>)
    requires Shows(s, threads, u, lo, threads, v) && lo <= threads && v > 0 && u + (threads - lo) * v <= MAX64
    ensures Small(go, v) && Shows(Run(c, s, go), threads, u + (threads - lo) * v, 0, 0, v)
    decreases threads - lo
  {
    if lo == threads {
      go := [];
    } else {
      assert (threads - lo) * v == v + (threads - lo - 1) * v && (threads - lo - 1) * v >= 0;
      var one := Add(c, s, threads, u, lo, threads, v);
      var more := AddAll(c, Run(c, s, one), threads, u + v, lo + 1, v);
      go := one + more;
      RunAppend(c, s, one, more);
    }
  }

  /** All threads pass the check at the limit, all of them add, and the sum in the check has wrapped. */
  lemma {:induction false} PassTheLimit(c: Config, threads: nat, top: nat) returns (go: seq<Move>)
    requires 0 <= c.used <= c.maxLimit <= MAX64 && threads > 0 && top > 0
    requires c.maxLimit + threads * top < c.used + MAX64
    ensures Small(go, top)
    ensures Shows(Run(c, Initial(threads), go), threads, c.maxLimit - c.used + threads * top, 0, 0, top)
  {
    var room := c.maxLimit - c.used;
    var first := AddOnes(c, Initial(threads), threads, 0, top);
    var s1 := Run(c, Initial(threads), first);
    WrapIsExact(room + c.used);
    var second := PassAll(c, s1, threads, room, 0, top);
    var s2 := Run(c, s1, second);
    var third := AddAll(c, s2, threads, room, 0, top);
    go := first + (second + third);
    RunAppend(c, s1, second, third);
    RunAppend(c, Initial(threads), first, second + third);
  }

  lemma {:induction false} OverrunBreaks(c: Config, threads: nat, top: nat) returns (go: seq<Move>)
    requires 0 <= c.used <= c.maxLimit <= MAX64 && threads > 0 && top > 0
    requires MAX64 < c.maxLimit + threads * top < c.used + MAX64
    ensures Small(go, top) && !Covered(c, threads, top, Run(c, Initial(threads), go).usage)
  {
    var u := c.maxLimit - c.used + threads * top;
    var first := PassTheLimit(c, threads, top);
    assert !Exceeded(c, u);
    var last := AddOne(c, Run(c, Initial(threads), first), threads, u, top, top);
    go := first + last;
    RunAppend(c, Initial(threads), first, last);
  }

  /**
    The limit is overrun by at most one value per thread, in every run, exactly if the quota is
    exceeded from the start, or the sum in the check cannot wrap, or the counter cannot get that far.
   */
  lemma {:induction false} OverrunIff(c: Config, threads: nat, top: nat)
    requires 0 <= c.used <= MAX64 && 0 <= c.maxLimit <= MAX64 && threads > 0 && top > 0
    ensures AlwaysCovered(c, threads, top)
       <==> (|| c.used > c.maxLimit
             || c.maxLimit + threads * top <= MAX64
             || c.used + MAX64 <= c.maxLimit + threads * top)
  {
    if c.used <= c.maxLimit && MAX64 < c.maxLimit + threads * top < c.used + MAX64 {
      var go := OverrunBreaks(c, threads, top);
    } else {
      forall moves: seq<Move> | Small(moves, top)
        ensures Covered(c, threads, top, Run(c, Initial(threads), moves).usage)
      {
        CoveredIf(c, threads, top, moves);
      }
    }
  }

  /** For example, a quota that is used up to 2^63 - 1 accepts 1 twice. */
  lemma LargeQuotaWraps()
    ensures var c := Config(MAX64, MAX64);
            var s := Run(c, Initial(1), Insist(AddUsage(1), 4));
            s.usage == 2 && !Covered(c, 1, 1, s.usage)
  {
    var c, call := Config(MAX64, MAX64), AddUsage(1);
    var s0 := State(0, [Idle], 0, 0, 0, 0);
    assert Initial(1) == s0;
    var s1, s2 := s0.(threads := [Adding(1)]), State(1, [Idle], 1, 0, 0, 0);
    var s3, s4 := s2.(threads := [Adding(1)]), State(2, [Idle], 2, 0, 0, 0);
    assert !Exceeded(c, 0) && !Exceeded(c, 1);
    assert Next(c, s0, 0, call) == s1 && Next(c, s1, 0, call) == s2;
    assert Next(c, s2, 0, call) == s3 && Next(c, s3, 0, call) == s4;
    InsistStep(c, s0, call, 4);
    InsistStep(c, s1, call, 3);
    InsistStep(c, s2, call, 2);
    InsistStep(c, s3, call, 1);
  }
}
