/**
  What a lookup may answer while registrations are in progress. It is not always the longest match
  of some moment: the walk ends at a missing child and then checks its last node once more, and in
  between a longer route may have appeared. The theorems say exactly when every lookup answers as
  if it had happened at one moment.
 */
module ConcurrentLookup {
  import opened Bytes
  import opened Prefixes
  import opened Tables
  import opened ConcurrentRegister

  /** In every run, a lookup's answer is the longest match of a moment, or it is late. */
  lemma {:induction false} LookupAnswers(h: Heap, nodes: Names, ts: seq<Thread>, schedule: seq<nat>, i: nat)
    requires AtRest(h, nodes) && NotBegun(ts) && i < |ts| && ts[i].LookingUp?
    ensures var s := Run(State(h, [], ts), schedule);
            && |s.threads| == |ts| && s.threads[i].LookingUp?
            && var r := s.threads[i].r;
               r.stage.Answered? ==>
                 && r.when.from <= r.when.clear <= r.when.at <= |s.log|
                 && (Exact(s.log, TableOf(h, nodes), r) || Late(s.log, TableOf(h, nodes), r))
  {
    var s0 := State(h, [], ts);
    StartInv(h, nodes, ts);
    var nodes' := RunInv(s0, schedule, nodes, TableOf(h, nodes));
    RunKeepsTasks(s0, schedule, i);
    var s := Run(s0, schedule);
    assert ThreadOk(s.heap, nodes', s.log, TableOf(h, nodes), s.threads[i]);
  }

  /** A finished lookup answers as the table of some moment between its beginning and its decisive read. */
  ghost predicate Linearizes(log: Log, t0: Table, r: Searcher) {
    r.stage.Answered? ==>
      && r.when.at <= |log|
      && exists m :: r.when.from <= m <= r.when.at && r.best == LongestMatch(TableAt(t0, log, m), r.addr)
  }

  /** Two registrations on the way to an address: one prefix properly inside the other, with different targets. */
  predicate Clash(x: Registration, y: Registration, addr: Prefix) {
    x.key <= y.key && x.key != y.key && y.key <= addr && x.val != y.val
  }

  function TaskOf(w: Walker): Registration { Registration(w.key, w.val) }

  /** Threads i and j clash on the address that thread k looks up. */
  ghost predicate ClashAt(ts: seq<Thread>, i: nat, j: nat, k: nat) {
    && i < |ts| && j < |ts| && k < |ts| && ts[i].Registering? && ts[j].Registering? && ts[k].LookingUp?
    && Clash(TaskOf(ts[i].w), TaskOf(ts[j].w), ts[k].r.addr)
  }

  /** Thread l can change what was found for an address before a registration of x: no longer route is there. */
  ghost predicate Shadows(ts: seq<Thread>, t0: Table, x: Registration, addr: Prefix, l: nat) {
    && l < |ts| && ts[l].Registering? && ts[l].w.key <= x.key && ts[l].w.val != x.val
    && NothingBeyond(t0, addr, |ts[l].w.key|)
  }

  /** The target of x is not what is found for the address at first, or some thread can see to that. */
  ghost predicate Novel(ts: seq<Thread>, t0: Table, x: Registration, addr: Prefix) {
    LongestMatch(t0, addr) != Some(x.val) || exists l :: Shadows(ts, t0, x, addr, l)
  }

  /** A clash whose shorter prefix has no node below it on the way to the address, and whose target is news. */
  ghost predicate RaceAt(ts: seq<Thread>, nodes: Names, t0: Table, i: nat, j: nat, k: nat) {
    && ClashAt(ts, i, j, k)
    && ts[k].r.addr[..|ts[i].w.key| + 1] !in nodes
    && Novel(ts, t0, TaskOf(ts[i].w), ts[k].r.addr)
  }

  ghost predicate Racing(ts: seq<Thread>, nodes: Names, t0: Table) {
    exists i, j, k :: RaceAt(ts, nodes, t0, i, j, k)
  }

  // ----- where walks end

  /** A lookup that has left its loop early did so above a node that was not there at the start. */
  ghost predicate EndsAbove(r: Searcher, n0: Names) {
    (r.stage == AtLeaf(true) || r.stage == AtTarget(true) || r.stage.Answered?) && r.pos < |r.addr| ==>
      r.addr[..r.pos + 1] !in n0
  }

  ghost predicate AllEndAbove(s: State, n0: Names) {
    forall i :: 0 <= i < |s.threads| && s.threads[i].LookingUp? ==> EndsAbove(s.threads[i].r, n0)
  }

  lemma StepEnds(s: State, i: nat, nodes: Names, t0: Table, n0: Names)
    requires Inv(s, nodes, t0) && AllEndAbove(s, n0) && forall p :: p in n0 ==> p in nodes
    ensures AllEndAbove(Next(s, i), n0)
  {
    if i < |s.threads| && s.threads[i].LookingUp? && s.threads[i].r.cur < |s.heap| {
      assert ThreadOk(s.heap, nodes, s.log, t0, s.threads[i]);
      ReadEnds(s.heap, s.log, nodes, t0, s.threads[i].r, n0);
    }
  }

  lemma ReadEnds(h: Heap, log: Log, nodes: Names, t0: Table, r: Searcher, n0: Names)
    requires Shape(h, nodes) && SearcherOk(nodes, log, t0, r) && EndsAbove(r, n0) && r.cur < |h|
    requires forall p :: p in n0 ==> p in nodes
    ensures EndsAbove(Read(h, |log|, r), n0)
  {
    if r.stage.AtChild? {
      assert NodeOk(h, nodes, r.addr[..r.pos]);
      assert r.addr[..r.pos + 1] == r.addr[..r.pos] + [r.addr[r.pos]];
    }
  }

  lemma {:induction false} RunEnds(s: State, schedule: seq<nat>, nodes: Names, t0: Table, n0: Names)
    requires Inv(s, nodes, t0) && AllEndAbove(s, n0) && forall p :: p in n0 ==> p in nodes
    ensures AllEndAbove(Run(s, schedule), n0)
    decreases |schedule|
  {
    if schedule != [] {
      StepEnds(s, schedule[0], nodes, t0, n0);
      var nodes' := StepInv(s, schedule[0], nodes, t0);
      RunEnds(Next(s, schedule[0]), schedule[1..], nodes', t0, n0);
    }
  }

  // ----- late answers

  /** A route of a later moment was there before, with the same target, or was registered. */
  lemma {:induction false} RouteOrigin(t0: Table, log: Log, c: nat, m: nat, p: Prefix)
    requires c <= m <= |log| && p in TableAt(t0, log, m)
    ensures var v := TableAt(t0, log, m)[p];
            (p in TableAt(t0, log, c) && TableAt(t0, log, c)[p] == v) || Registration(p, v) in log
    decreases m
  {
    if c < m {
      assert log[..m][..m - 1] == log[..m - 1];
      if log[m - 1].key == p {
        assert log[m - 1] == Registration(p, TableAt(t0, log, m)[p]);
      } else {
        RouteOrigin(t0, log, c, m - 1, p);
      }
    }
  }

  /** The longest match is the target of some live prefix, and no longer one is live. */
  lemma {:induction false} BestFound(t: Table, addr: Prefix, k: nat) returns (j: nat)
    requires k <= |addr| && Best(t, addr, k).Some?
    ensures j <= k && addr[..j] in t && Best(t, addr, k) == Some(t[addr[..j]])
    ensures forall i :: j < i <= k ==> addr[..i] !in t
  {
    if addr[..k] in t { j := k; } else { j := BestFound(t, addr, k - 1); }
  }

  /** A late answer that is right at no moment comes from a clash, */
  lemma {:induction false} LateClash(log: Log, t0: Table, r: Searcher) returns (x: Registration, y: Registration)
    requires r.stage.Answered? && r.when.from <= r.when.clear <= r.when.at <= |log| && Late(log, t0, r)
    requires !Linearizes(log, t0, r)
    ensures x in log && y in log && Clash(x, y, r.addr) && x == Registration(r.addr[..r.pos], r.best.value)
  {
    var p, early, late := r.addr[..r.pos], TableAt(t0, log, r.when.clear), TableAt(t0, log, r.when.at);
    BestIsLongestHere(late, r.addr, r.pos);
    var j := BestFound(late, r.addr, |r.addr|);
    var q := r.addr[..j];
    x, y := Registration(p, late[p]), Registration(q, late[q]);
    assert r.best != LongestMatch(late, r.addr) && r.best != LongestMatch(early, r.addr);
    assert j > r.pos && late[q] != late[p];
    assert q !in early && p <= q;
    RouteOrigin(t0, log, r.when.clear, r.when.at, q);
    RouteOrigin(t0, log, r.when.clear, r.when.at, p);
    if p in early && early[p] == late[p] {
      BestIgnores(early, r.addr, r.pos, |r.addr|);
    }
  }

  /** and its target was news: not what was found at first, or hidden by another registration. */
  lemma {:induction false} LateNews(log: Log, t0: Table, r: Searcher) returns (z: Option<Registration>)
    requires r.stage.Answered? && r.when.from <= r.when.clear <= r.when.at <= |log| && Late(log, t0, r)
    requires !Linearizes(log, t0, r) && NothingBeyond(t0, r.addr, r.pos)
    ensures z.None? ==> LongestMatch(t0, r.addr) != r.best
    ensures z.Some? ==>
              && z.value in log && z.value.key <= r.addr[..r.pos] && Some(z.value.val) != r.best
              && NothingBeyond(t0, r.addr, |z.value.key|)
  {
    var early := TableAt(t0, log, r.when.clear);
    z := None;
    if LongestMatch(t0, r.addr) == r.best {
      var j := BestFound(t0, r.addr, |r.addr|);
      assert log[..0] == [] && TableAt(t0, log, 0) == t0;
      KeysStay(t0, log, r.when.clear, r.addr[..j]);
      BestIsLongestHere(early, r.addr, j);
      var e := BestFound(early, r.addr, |r.addr|);
      var q := r.addr[..e];
      assert j <= e <= r.pos && Some(early[q]) != r.best;
      RouteOrigin(t0, log, 0, r.when.clear, q);
      z := Some(Registration(q, early[q]));
      assert q <= r.addr[..r.pos];
    }
  }

  lemma {:induction false} KeysStay(t0: Table, log: Log, m: nat, p: Prefix)
    requires m <= |log| && p in t0
    ensures p in TableAt(t0, log, m)
    decreases m
  {
    if m > 0 {
      assert log[..m][..m - 1] == log[..m - 1];
      KeysStay(t0, log, m - 1, p);
    } else {
      assert log[..0] == [];
    }
  }

  lemma BestIsLongestHere(t: Table, addr: Prefix, n: nat)
    requires n <= |addr| && addr[..n] in t
    ensures LongestMatch(t, addr).Some?
  {
  }

  /** Every logged registration is some thread's. */
  lemma LoggedTask(h: Heap, ts: seq<Thread>, schedule: seq<nat>, x: Registration) returns (i: nat)
    requires NotBegun(ts) && x in Run(State(h, [], ts), schedule).log
    ensures i < |ts| && ts[i].Registering? && TaskOf(ts[i].w) == x
  {
    LogIsFinished(h, ts, schedule, x);
    FinishedIsMade(ts, x);
    i :| 0 <= i < |ts| && ts[i].Registering? && Registration(ts[i].w.key, ts[i].w.val) == x;
  }

  /** A lookup that answers as the table of no moment comes from a race. */
  lemma {:induction false} LateRace(h: Heap, nodes: Names, ts: seq<Thread>, schedule: seq<nat>, k: nat)
    requires AtRest(h, nodes) && NotBegun(ts) && k < |ts| && ts[k].LookingUp?
    requires var s := Run(State(h, [], ts), schedule);
             && |s.threads| == |ts| && s.threads[k].LookingUp? && s.threads[k].r.addr == ts[k].r.addr
             && var r := s.threads[k].r;
                && r.stage.Answered? && r.when.from <= r.when.clear <= r.when.at <= |s.log|
                && Late(s.log, TableOf(h, nodes), r) && !Linearizes(s.log, TableOf(h, nodes), r)
                && EndsAbove(r, nodes)
    ensures Racing(ts, nodes, TableOf(h, nodes))
  {
    var s, t0 := Run(State(h, [], ts), schedule), TableOf(h, nodes);
    var r := s.threads[k].r;
    var x, y := LateClash(s.log, t0, r);
    var i := LoggedTask(h, ts, schedule, x);
    var j := LoggedTask(h, ts, schedule, y);
    StartNothingBelow(h, nodes, r.addr, r.pos);
    var z := LateNews(s.log, t0, r);
    if z.Some? {
      var l := LoggedTask(h, ts, schedule, z.value);
      assert Shadows(ts, t0, x, r.addr, l);
    }
    assert RaceAt(ts, nodes, t0, i, j, k);
  }

  lemma StartNothingBelow(h: Heap, nodes: Names, addr: Prefix, n: nat)
    requires AtRest(h, nodes) && n < |addr| && addr[..n + 1] !in nodes
    ensures NothingBeyond(TableOf(h, nodes), addr, n)
  {
    StartInv(h, nodes, []);
    NothingBelowMissing(h, nodes, [], TableOf(h, nodes), addr, n);
  }

  /** Without a race, every lookup of every run answers as the table of one moment. */
  lemma {:induction false} LookupsLinearize(h: Heap, nodes: Names, ts: seq<Thread>, schedule: seq<nat>, k: nat)
    requires AtRest(h, nodes) && NotBegun(ts) && k < |ts| && ts[k].LookingUp?
    requires !Racing(ts, nodes, TableOf(h, nodes))
    ensures var s := Run(State(h, [], ts), schedule);
            && |s.threads| == |ts| && s.threads[k].LookingUp?
            && Linearizes(s.log, TableOf(h, nodes), s.threads[k].r)
  {
    var s := Run(State(h, [], ts), schedule);
    LookupAnswers(h, nodes, ts, schedule, k);
    RunKeepsTasks(State(h, [], ts), schedule, k);
    StartInv(h, nodes, ts);
    RunEnds(State(h, [], ts), schedule, nodes, TableOf(h, nodes), nodes);
    var r := s.threads[k].r;
    assert EndsAbove(r, nodes);
    if r.stage.Answered? && !Linearizes(s.log, TableOf(h, nodes), r) {
      assert Late(s.log, TableOf(h, nodes), r);
      LateRace(h, nodes, ts, schedule, k);
    }
  }
}
