/** Registrations and lookups are wait-free: how many steps of its own each needs at most, in any schedule. */
module Progress {
  import opened Bytes
  import opened Prefixes
  import opened Tables
  import opened ConcurrentRegister

  /** Steps of its own that a registration has left at most: three for each bit, and the two stores. */
  function WalkerLeft(w: Walker): nat
    requires w.pos <= |w.key|
  {
    var bits := |w.key| - w.pos;
    match w.pc
    case Walking => 3 * bits + 2
    case Holding(_) => 3 * bits + 1
    case Lost => 3 * bits
    case Marked => 1
    case Done => 0
  }

  /** The same for a lookup: three for each bit, the start, and the last node. */
  function SearcherLeft(r: Searcher): nat
    requires r.stage.Fresh? || r.pos <= |r.addr|
  {
    match r.stage
    case Fresh => 3 * |r.addr| + 3
    case AtLeaf(last) => if last then 2 else 3 * (|r.addr| - r.pos) + 2
    case AtTarget(last) => if last then 1 else 3 * (|r.addr| - r.pos) + 1
    case AtChild => 3 * (|r.addr| - r.pos)
    case Answered => 0
  }

  ghost predicate Placed(t: Thread) {
    match t
    case Registering(w) => w.pos <= |w.key|
    case LookingUp(r) => r.stage.Fresh? || r.pos <= |r.addr|
  }

  ghost function Left(t: Thread): nat
    requires Placed(t)
  {
    match t
    case Registering(w) => WalkerLeft(w)
    case LookingUp(r) => SearcherLeft(r)
  }

  predicate Finished(t: Thread) {
    match t
    case Registering(w) => w.pc.Done?
    case LookingUp(r) => r.stage.Answered?
  }

  /** A registration's step, whether its compare-and-swap wins or loses, brings it nearer to its end. */
  lemma WalkerAdvances(h: Heap, nodes: Names, log: Log, w: Walker)
    requires Shape(h, nodes) && WalkerOk(h, nodes, w)
    ensures var w' := Write(h, log, w).walker;
            w'.pos <= |w'.key| && (w'.pc.Done? || WalkerLeft(w') < WalkerLeft(w))
  {
    assert NodeOk(h, nodes, w.key[..w.pos]);
    if w.pos < |w.key| { assert w.key[..w.pos] + [w.key[w.pos]] == w.key[..w.pos + 1]; }
  }

  /** A lookup's step does too. */
  lemma SearcherAdvances(h: Heap, nodes: Names, log: Log, t0: Table, r: Searcher)
    requires SearcherOk(nodes, log, t0, r) && r.cur < |h|
    ensures var r' := Read(h, |log|, r);
            r'.pos <= |r'.addr| && (r'.stage.Answered? || SearcherLeft(r') < SearcherLeft(r))
  {
  }

  /** No thread is ever stuck, and nobody else's step sets it back. */
  lemma StepAdvances(s: State, i: nat, nodes: Names, t0: Table, k: nat)
    requires Inv(s, nodes, t0) && k < |s.threads|
    ensures |Next(s, i).threads| == |s.threads| && Placed(s.threads[k]) && Placed(Next(s, i).threads[k])
    ensures if i != k || Finished(s.threads[k]) then Next(s, i).threads[k] == s.threads[k]
            else Left(Next(s, i).threads[k]) < Left(s.threads[k])
  {
    assert ThreadOk(s.heap, nodes, s.log, t0, s.threads[k]);
    assert NodeOk(s.heap, nodes, []);
    if i == k {
      match s.threads[k]
      case Registering(w) => WalkerAdvances(s.heap, nodes, s.log, w);
      case LookingUp(r) =>
        SearcherInHeap(s.heap, nodes, s.log, t0, r);
        SearcherAdvances(s.heap, nodes, s.log, t0, r);
    }
  }

  lemma SearcherInHeap(h: Heap, nodes: Names, log: Log, t0: Table, r: Searcher)
    requires Shape(h, nodes) && SearcherOk(nodes, log, t0, r)
    ensures r.cur < |h|
  {
    assert NodeOk(h, nodes, []);
    if !r.stage.Fresh? { assert NodeOk(h, nodes, r.addr[..r.pos]); }
  }

  lemma LeftIffUnfinished(s: State, nodes: Names, t0: Table, k: nat)
    requires Inv(s, nodes, t0) && k < |s.threads|
    ensures Placed(s.threads[k]) && (Left(s.threads[k]) == 0 <==> Finished(s.threads[k]))
  {
    assert ThreadOk(s.heap, nodes, s.log, t0, s.threads[k]);
  }

  lemma {:induction false} RunAdvances(s: State, schedule: seq<nat>, nodes: Names, t0: Table, k: nat)
    requires Inv(s, nodes, t0) && k < |s.threads| && Placed(s.threads[k])
    requires multiset(schedule)[k] >= Left(s.threads[k])
    ensures |Run(s, schedule).threads| == |s.threads| && Finished(Run(s, schedule).threads[k])
    decreases |schedule|
  {
    LeftIffUnfinished(s, nodes, t0, k);
    if schedule != [] {
      var i, rest := schedule[0], schedule[1..];
      assert schedule == [i] + rest;
      StepAdvances(s, i, nodes, t0, k);
      var nodes' := StepInv(s, i, nodes, t0);
      RunAdvances(Next(s, i), rest, nodes', t0, k);
    }
  }

  /** Steps of its own that a thread needs at most. */
  function Enough(t: Thread): nat {
    match t
    case Registering(w) => 3 * |w.key| + 2
    case LookingUp(r) => 3 * |r.addr| + 3
  }

  /**
    Wait-freedom: whatever the other threads do, a registration of n bits is finished after 3n + 2
    steps of its own, and a lookup of n bits has answered after 3n + 3.
   */
  lemma {:induction false} WaitFree(h: Heap, nodes: Names, ts: seq<Thread>, schedule: seq<nat>, k: nat)
    requires AtRest(h, nodes) && NotBegun(ts) && k < |ts| && multiset(schedule)[k] >= Enough(ts[k])
    ensures var s := Run(State(h, [], ts), schedule);
            |s.threads| == |ts| && Finished(s.threads[k])
  {
    StartInv(h, nodes, ts);
    RunAdvances(State(h, [], ts), schedule, nodes, TableOf(h, nodes), k);
  }

  // ----- what is left when everybody is done

  /** What the threads are to register. */
  function Tasks(ts: seq<Thread>): Log {
    if ts == [] then []
    else
      var t := ts[|ts| - 1];
      Tasks(ts[..|ts| - 1]) + if t.Registering? then [Registration(t.w.key, t.w.val)] else []
  }

  lemma {:induction false} TasksAre(ts: seq<Thread>, r: Registration)
    ensures multiset(Tasks(ts))[r] == Times(ts, false, r)
  {
    if ts != [] { TasksAre(ts[..|ts| - 1], r); }
  }

  ghost predicate Fair(ts: seq<Thread>, schedule: seq<nat>) {
    forall k :: 0 <= k < |ts| ==> multiset(schedule)[k] >= Enough(ts[k])
  }

  /** A run that gives every thread its steps ends with all registrations in the log, and all lookups answered. */
  lemma {:induction false} FairRunEnds(h: Heap, nodes: Names, ts: seq<Thread>, schedule: seq<nat>)
    requires AtRest(h, nodes) && NotBegun(ts) && Fair(ts, schedule)
    ensures var s := Run(State(h, [], ts), schedule);
            multiset(s.log) == multiset(Tasks(ts)) && forall t :: t in s.threads ==> Finished(t)
  {
    var s := Run(State(h, [], ts), schedule);
    forall t | t in s.threads ensures Finished(t) {
      var k :| 0 <= k < |s.threads| && s.threads[k] == t;
      SameThreads(State(h, [], ts), schedule);
      WaitFree(h, nodes, ts, schedule, k);
    }
    forall r ensures multiset(s.log)[r] == multiset(Tasks(ts))[r] {
      LogIsFinished(h, ts, schedule, r);
      TasksAre(ts, r);
    }
  }

  lemma {:induction false} SameThreads(s: State, schedule: seq<nat>)
    ensures |Run(s, schedule).threads| == |s.threads|
    decreases |schedule|
  {
    if schedule != [] { SameThreads(Next(s, schedule[0]), schedule[1..]); }
  }

  /** With distinct prefixes the trie then answers as the table with all of them, whoever was first. */
  lemma {:induction false} FairRunRegisters(h: Heap, nodes: Names, ts: seq<Thread>, schedule: seq<nat>, a: Prefix)
    requires AtRest(h, nodes) && NotBegun(ts) && Fair(ts, schedule) && DistinctKeys(Tasks(ts))
    ensures var s := Run(State(h, [], ts), schedule);
            Lookup(s.heap, 0, a, None) == LongestMatch(RegisterAll(TableOf(h, nodes), Tasks(ts)), a)
  {
    FairRunEnds(h, nodes, ts, schedule);
    RegistrationsLinearize(h, nodes, ts, schedule, a);
    OrderIsIrrelevant(TableOf(h, nodes), Tasks(ts), Run(State(h, [], ts), schedule).log);
  }
}
