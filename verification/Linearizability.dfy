/** Exactly when lookups during registrations answer as the table of one moment. */
module Linearizability {
  import opened Bytes
  import opened Prefixes
  import opened Tables
  import opened ConcurrentRegister
  import opened ConcurrentLookup
  import opened LookupRaces

  /** A race that is on: the rest of the schedule, from a state in which the short target is news. */
  lemma {:induction false} RaceFrom(
    s: State, nodes: Names, t0: Table, i: nat, j: nat, k: nat, w: Walker, v: Walker, addr: Prefix)
    returns (go: seq<nat>)
    requires Inv(s, nodes, t0) && i < |s.threads| && j < |s.threads| && k < |s.threads| && i != j && i != k && j != k
    requires s.threads[i] == Registering(w) && w.pc.Walking? && s.threads[j] == Registering(v) && v.pc.Walking?
    requires s.threads[k].LookingUp? && s.threads[k].r.stage.Fresh? && s.threads[k].r.addr == addr
    requires Clash(TaskOf(w), TaskOf(v), addr) && addr[..|w.key| + 1] !in nodes
    ensures var s', x, y := Run(s, go), TaskOf(w), TaskOf(v);
            && s'.log == s.log + [y, x] && k < |s'.threads| && s'.threads[k].LookingUp?
            && var r := s'.threads[k].r;
               && r.stage.Answered? && r.best == Some(x.val) && r.addr == addr
               && r.when.from == |s.log| && r.when.at == |s.log| + 2
  {
    var a, n1 := Arrive(s, nodes, t0, i, k, w, addr);
    var s1 := Run(s, a);
    var b := PassBy(s1, n1, t0, k, addr, |w.key|);
    var s2 := Run(s1, b);
    var c, n2 := StoreBoth(s2, n1, t0, i, j, k, w, v, addr, |s.log|);
    var s3 := Run(s2, c);
    AnswerShort(s3, n2, t0, k, addr, TaskOf(w), |s.log|);
    go := a + (b + (c + [k, k]));
    RunAppend(s2, c, [k, k]);
    RunAppend(s1, b, c + [k, k]);
    RunAppend(s, a, b + (c + [k, k]));
  }

  /** Such a race ends with an answer that was the longest match at no moment. */
  lemma RaceIsWrong(t0: Table, pre: Log, x: Registration, y: Registration, r: Searcher)
    requires Clash(x, y, r.addr) && LongestMatch(RegisterAll(t0, pre), r.addr) != Some(x.val)
    requires NothingBeyond(RegisterAll(t0, pre), r.addr, |x.key|)
    requires r.stage.Answered? && r.best == Some(x.val) && r.when.from == |pre| && r.when.at == |pre| + 2
    ensures !Linearizes(pre + [y, x], t0, r)
  {
    forall m | |pre| <= m <= |pre| + 2 ensures LongestMatch(TableAt(t0, pre + [y, x], m), r.addr) != Some(x.val) {
      NeverShort(t0, pre, x, y, r.addr, m);
    }
  }

  /** If the target is news at the start, the race is on at once; */
  lemma {:induction false} RaceAtOnce(h: Heap, nodes: Names, ts: seq<Thread>, i: nat, j: nat, k: nat)
    returns (go: seq<nat>)
    requires AtRest(h, nodes) && NotBegun(ts) && ClashAt(ts, i, j, k)
    requires ts[k].r.addr[..|ts[i].w.key| + 1] !in nodes
    requires LongestMatch(TableOf(h, nodes), ts[k].r.addr) != Some(ts[i].w.val)
    ensures var s := Run(State(h, [], ts), go);
            k < |s.threads| && s.threads[k].LookingUp? && !Linearizes(s.log, TableOf(h, nodes), s.threads[k].r)
  {
    var t0, addr := TableOf(h, nodes), ts[k].r.addr;
    StartInv(h, nodes, ts);
    StartNothingBelow(h, nodes, addr, |ts[i].w.key|);
    go := RaceFrom(State(h, [], ts), nodes, t0, i, j, k, ts[i].w, ts[j].w, addr);
    RaceIsWrong(t0, [], TaskOf(ts[i].w), TaskOf(ts[j].w), Run(State(h, [], ts), go).threads[k].r);
  }

  /** A registration that no longer route hides is what is found. */
  lemma Shadowed(t0: Table, z: Registration, addr: Prefix)
    requires z.key <= addr && NothingBeyond(t0, addr, |z.key|)
    ensures LongestMatch(RegisterAll(t0, [z]), addr) == Some(z.val)
  {
    RegisterSnoc(t0, [], z);
    assert [] + [z] == [z] && addr[..|z.key|] == z.key;
    BestIsLongest(RegisterAll(t0, [z]), addr, |addr|, |z.key|);
  }

  /** otherwise another registration comes first. */
  lemma {:induction false} RaceAfter(h: Heap, nodes: Names, ts: seq<Thread>, i: nat, j: nat, k: nat, l: nat)
    returns (go: seq<nat>)
    requires AtRest(h, nodes) && NotBegun(ts) && ClashAt(ts, i, j, k)
    requires ts[k].r.addr[..|ts[i].w.key| + 1] !in nodes
    requires Shadows(ts, TableOf(h, nodes), TaskOf(ts[i].w), ts[k].r.addr, l)
    ensures var s := Run(State(h, [], ts), go);
            k < |s.threads| && s.threads[k].LookingUp? && !Linearizes(s.log, TableOf(h, nodes), s.threads[k].r)
  {
    var s0, t0, addr := State(h, [], ts), TableOf(h, nodes), ts[k].r.addr;
    var first, n1 := RegisterFirst(h, nodes, ts, i, l, addr);
    var s1 := Run(s0, first);
    var more := RaceFrom(s1, n1, t0, i, j, k, ts[i].w, ts[j].w, addr);
    go := first + more;
    RunAppend(s0, first, more);
    RaceIsWrong(t0, s1.log, TaskOf(ts[i].w), TaskOf(ts[j].w), Run(s1, more).threads[k].r);
  }

  /** The other registration in full: its target is found, and still nothing lies below the shorter prefix. */
  lemma {:induction false} RegisterFirst(h: Heap, nodes: Names, ts: seq<Thread>, i: nat, l: nat, addr: Prefix)
    returns (go: seq<nat>, n1: Names)
    requires AtRest(h, nodes) && NotBegun(ts) && i < |ts| && ts[i].Registering?
    requires ts[i].w.key <= addr && |ts[i].w.key| < |addr| && addr[..|ts[i].w.key| + 1] !in nodes
    requires Shadows(ts, TableOf(h, nodes), TaskOf(ts[i].w), addr, l)
    ensures var s, t0, w := Run(State(h, [], ts), go), TableOf(h, nodes), ts[i].w;
            && Inv(s, n1, t0) && |s.log| == 1 && OnlyMoved(State(h, [], ts), s, l, l) && addr[..|w.key| + 1] !in n1
            && LongestMatch(RegisterAll(t0, s.log), addr) != Some(w.val)
            && NothingBeyond(RegisterAll(t0, s.log), addr, |w.key|)
  {
    var s0, t0, w, z := State(h, [], ts), TableOf(h, nodes), ts[i].w, TaskOf(ts[l].w);
    StartInv(h, nodes, ts);
    go, n1 := Register(s0, nodes, t0, l, ts[l].w);
    var s1 := Run(s0, go);
    assert s1.log == [z];
    assert addr[..|w.key| + 1] !in n1;
    Shadowed(t0, z, addr);
    NothingBelowMissing(s1.heap, n1, s1.log, t0, addr, |w.key|);
  }

  /** Every lookup of every run of these threads, from a trie at rest, answers as the table of one moment. */
  ghost predicate AllLinearize(h: Heap, t0: Table, ts: seq<Thread>) {
    forall go: seq<nat>, k: nat ::
      var s := Run(State(h, [], ts), go);
      k < |s.threads| && s.threads[k].LookingUp? ==> Linearizes(s.log, t0, s.threads[k].r)
  }

  lemma {:induction false} RaceBreaks(h: Heap, nodes: Names, ts: seq<Thread>, i: nat, j: nat, k: nat)
    requires AtRest(h, nodes) && NotBegun(ts) && RaceAt(ts, nodes, TableOf(h, nodes), i, j, k)
    ensures !AllLinearize(h, TableOf(h, nodes), ts)
  {
    var go;
    if LongestMatch(TableOf(h, nodes), ts[k].r.addr) != Some(ts[i].w.val) {
      go := RaceAtOnce(h, nodes, ts, i, j, k);
    } else {
      var l :| Shadows(ts, TableOf(h, nodes), TaskOf(ts[i].w), ts[k].r.addr, l);
      go := RaceAfter(h, nodes, ts, i, j, k, l);
    }
  }

  /**
    On any trie at rest, lookups are linearizable exactly when there is no race: two registrations
    with different targets, one prefix properly inside the other, both on the way to an address that
    is looked up, where the trie ends at or above the shorter one, and its target is not what is found
    in any case.
   */
  lemma {:induction false} LinearizableIff(h: Heap, nodes: Names, ts: seq<Thread>)
    requires AtRest(h, nodes) && NotBegun(ts)
    ensures AllLinearize(h, TableOf(h, nodes), ts) <==> !Racing(ts, nodes, TableOf(h, nodes))
  {
    var s0, t0 := State(h, [], ts), TableOf(h, nodes);
    if i, j, k :| RaceAt(ts, nodes, t0, i, j, k) {
      RaceBreaks(h, nodes, ts, i, j, k);
    } else {
      forall go: seq<nat>, k: nat | k < |Run(s0, go).threads| && Run(s0, go).threads[k].LookingUp?
        ensures Linearizes(Run(s0, go).log, t0, Run(s0, go).threads[k].r)
      {
        ThreadsStay(s0, go, k);
        LookupsLinearize(h, nodes, ts, go, k);
      }
    }
  }

  lemma {:induction false} ThreadsStay(s: State, go: seq<nat>, k: nat)
    requires k < |Run(s, go).threads|
    ensures k < |s.threads| && (Run(s, go).threads[k].LookingUp? <==> s.threads[k].LookingUp?)
    decreases |go|
  {
    if go != [] { ThreadsStay(Next(s, go[0]), go[1..], k); }
  }

  // ----- the empty trie

  const EMPTY: Heap := [BLANK]
  const ROOT: Names := map[[] := 0]

  lemma EmptyTrie()
    ensures AtRest(EMPTY, ROOT) && TableOf(EMPTY, ROOT) == map[]
  {
    assert NodeOk(EMPTY, ROOT, []);
  }

  /** On an empty trie every clash is a race. */
  lemma {:induction false} EmptyTrieIff(ts: seq<Thread>)
    requires NotBegun(ts)
    ensures AllLinearize(EMPTY, map[], ts) <==> !exists i: nat, j: nat, k: nat :: ClashAt(ts, i, j, k)
  {
    EmptyTrie();
    LinearizableIff(EMPTY, ROOT, ts);
    forall i: nat, j: nat, k: nat ensures ClashAt(ts, i, j, k) <==> RaceAt(ts, ROOT, map[], i, j, k) {
      if ClashAt(ts, i, j, k) { assert LongestMatch(map[], ts[k].r.addr).None?; }
    }
  }

  /** For example, a default route and a longer one, registered while an address under both is looked up. */
  lemma ClashExample()
    ensures var never := Moments(0, 0, 0, 0);
            var ts := [Registering(Walker([], Dst(1), 0, 0, Walking)),
                       Registering(Walker([true], Dst(2), 0, 0, Walking)),
                       LookingUp(Searcher([true], 0, 0, None, Fresh, never))];
            NotBegun(ts) && ClashAt(ts, 0, 1, 2)
  {
  }
}
