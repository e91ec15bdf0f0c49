/**
  Lock-free registration and lookup: any number of goroutines walk the same trie, step by atomic
  step. Registrations create the nodes they miss by compare-and-swap, lookups only read. A schedule
  picks who moves next; the theorems hold for every schedule.
 */
module ConcurrentRegister {
  import opened Bytes
  import opened Prefixes
  import opened Tables

  /** A node in shared memory; pointers are indexes, and index 0 is the root. */
  datatype Node = Node(zero: Option<nat>, one: Option<nat>, leaf: bool, target: Option<Any>) {
    function Child(b: bool): Option<nat> { if b then one else zero }
    function WithChild(b: bool, x: nat): Node { if b then this.(one := Some(x)) else this.(zero := Some(x)) }
  }

  const BLANK := Node(None, None, false, None)

  type Heap = seq<Node>

  datatype Registration = Registration(key: Prefix, val: Any)

  /** The target stores so far, oldest first. Moments are counted in stores. */
  type Log = seq<Registration>

  /** Where a registration stands: at a node, holding a node it wants to link, after a lost race, storing. */
  datatype Pc = Walking | Holding(private: nat) | Lost | Marked | Done

  /** Where a lookup stands; `last` marks the check of the last node, after the loop. */
  datatype Stage = Fresh | AtLeaf(last: bool) | AtTarget(last: bool) | AtChild | Answered

  /**
    History of a lookup: the moment it began, the moment its best target was read, a moment at which
    nothing longer was live, and the moment its walk ended.
   */
  datatype Moments = Moments(from: nat, clear: nat, at: nat, gap: nat)

  datatype Walker = Walker(key: Prefix, val: Any, pos: nat, cur: nat, pc: Pc)
  datatype Searcher = Searcher(addr: Prefix, pos: nat, cur: nat, best: Option<Any>, stage: Stage, when: Moments)
  datatype Thread = Registering(w: Walker) | LookingUp(r: Searcher)

  datatype State = State(heap: Heap, log: Log, threads: seq<Thread>)

  /** Shared memory, log and walker after a step. */
  datatype Moved = Moved(heap: Heap, log: Log, walker: Walker)

  /** One atomic step of a registration. */
  function Write(h: Heap, log: Log, w: Walker): Moved
    requires w.cur < |h|
  {
    match w.pc
    case Walking =>
      if w.pos >= |w.key| then Moved(h[w.cur := h[w.cur].(leaf := true)], log, w.(pc := Marked))
      else (match h[w.cur].Child(w.key[w.pos])
            case Some(next) => Moved(h, log, w.(cur := next, pos := w.pos + 1))
            case None => Moved(h + [BLANK], log, w.(pc := Holding(|h|))))
    case Holding(x) =>
      if w.pos >= |w.key| then Moved(h, log, w)
      else if h[w.cur].Child(w.key[w.pos]).None? then
        Moved(h[w.cur := h[w.cur].WithChild(w.key[w.pos], x)], log, w.(cur := x, pos := w.pos + 1, pc := Walking))
      else Moved(h, log, w.(pc := Lost))
    case Lost =>
      if w.pos >= |w.key| then Moved(h, log, w)
      else (match h[w.cur].Child(w.key[w.pos])
            case Some(next) => Moved(h, log, w.(cur := next, pos := w.pos + 1, pc := Walking))
            case None => Moved(h, log, w))
    case Marked =>
      Moved(h[w.cur := h[w.cur].(target := Some(w.val))], log + [Registration(w.key, w.val)], w.(pc := Done))
    case Done => Moved(h, log, w)
  }

  /** One atomic step of a lookup; `now` is the number of stores so far. */
  function Read(h: Heap, now: nat, r: Searcher): Searcher
    requires r.cur < |h|
  {
    match r.stage
    case Fresh => Searcher(r.addr, 0, 0, None, AtLeaf(|r.addr| == 0), Moments(now, now, now, now))
    case AtLeaf(last) => r.(stage := if h[r.cur].leaf then AtTarget(last) else if last then Answered else AtChild)
    case AtTarget(last) =>
      var target := h[r.cur].target;
      var r' := r.(stage := if last then Answered else AtChild);
      if target.None? then r'
      else r'.(best := target, when := r.when.(clear := if last then r.when.gap else now, at := now))
    case AtChild =>
      if r.pos >= |r.addr| then r
      else (match h[r.cur].Child(r.addr[r.pos])
            case None => r.(stage := AtLeaf(true), when := r.when.(gap := now))
            case Some(next) =>
              r.(cur := next, pos := r.pos + 1, stage := AtLeaf(r.pos + 1 == |r.addr|), when := r.when.(gap := now)))
    case Answered => r
  }

  function Next(s: State, i: nat): State {
    if i >= |s.threads| then s
    else match s.threads[i]
      case Registering(w) =>
        if w.cur >= |s.heap| then s
        else
          var m := Write(s.heap, s.log, w);
          State(m.heap, m.log, s.threads[i := Registering(m.walker)])
      case LookingUp(r) =>
        if r.cur >= |s.heap| then s
        else s.(threads := s.threads[i := LookingUp(Read(s.heap, |s.log|, r))])
  }

  function Run(s: State, schedule: seq<nat>): State
    decreases |schedule|
  {
    if schedule == [] then s else Run(Next(s, schedule[0]), schedule[1..])
  }

  // ----- the shape of the trie

  type Names = map<Prefix, nat>

  ghost predicate NodeOk(h: Heap, nodes: Names, p: Prefix)
    requires p in nodes
  {
    && nodes[p] < |h|
    && h[nodes[p]].zero == (if p + [false] in nodes then Some(nodes[p + [false]]) else None)
    && h[nodes[p]].one == (if p + [true] in nodes then Some(nodes[p + [true]]) else None)
    && (p != [] ==> p[..|p| - 1] in nodes)
  }

  /** `nodes` names exactly the linked nodes by the paths that lead to them. */
  ghost predicate Shape(h: Heap, nodes: Names) {
    && [] in nodes && nodes[[]] == 0
    && (forall p {:trigger NodeOk(h, nodes, p)} :: p in nodes ==> NodeOk(h, nodes, p))
    && (forall p, q :: p in nodes && q in nodes && nodes[p] == nodes[q] ==> p == q)
  }

  ghost function TableOf(h: Heap, nodes: Names): Table
    requires forall p :: p in nodes ==> nodes[p] < |h|
  {
    map p | p in nodes && h[nodes[p]].leaf && h[nodes[p]].target.Some? :: h[nodes[p]].target.value
  }

  // ----- tables over time

  /** Registrations one after the other, on the plain table. */
  function RegisterAll(t: Table, regs: Log): Table {
    if regs == [] then t
    else RegisterAll(t, regs[..|regs| - 1])[regs[|regs| - 1].key := regs[|regs| - 1].val]
  }

  /** The table after the first m stores. */
  function TableAt(t0: Table, log: Log, m: nat): Table
    requires m <= |log|
  {
    RegisterAll(t0, log[..m])
  }

  lemma RegisterSnoc(t: Table, regs: Log, r: Registration)
    ensures RegisterAll(t, regs + [r]) == RegisterAll(t, regs)[r.key := r.val]
  {
    assert (regs + [r])[..|regs|] == regs;
  }

  /** Routes appear and change, but never disappear. */
  lemma {:induction false} TablesGrow(t0: Table, log: Log, m: nat)
    requires m <= |log|
    ensures TableAt(t0, log, m).Keys <= RegisterAll(t0, log).Keys
  {
    if m < |log| {
      TablesGrow(t0, log[..|log| - 1], m);
      assert log[..|log| - 1][..m] == log[..m];
    } else {
      assert log[..m] == log;
    }
  }

  // ----- the invariant

  ghost predicate Named(h: Heap, nodes: Names) {
    forall p :: p in nodes ==> nodes[p] < |h|
  }

  /** A trie that stands for the table of its log; a node's flag is set before its target. */
  ghost predicate Core(h: Heap, nodes: Names, log: Log, t0: Table) {
    && Shape(h, nodes) && Named(h, nodes)
    && (forall p :: p in nodes && h[nodes[p]].target.Some? ==> h[nodes[p]].leaf)
    && TableOf(h, nodes) == RegisterAll(t0, log)
  }

  /** A registration is at the node of the part of its key it has read, and what it holds is its own. */
  ghost predicate WalkerOk(h: Heap, nodes: Names, w: Walker) {
    && w.pos <= |w.key| && w.key[..w.pos] in nodes && nodes[w.key[..w.pos]] == w.cur < |h|
    && (w.pc.Holding? ==> w.pos < |w.key| && w.pc.private < |h| && h[w.pc.private] == BLANK
                          && forall p :: p in nodes ==> nodes[p] != w.pc.private)
    && (w.pc.Lost? ==> w.pos < |w.key| && w.key[..w.pos] + [w.key[w.pos]] in nodes)
    && (w.pc.Marked? || w.pc.Done? ==> w.pos == |w.key| && h[w.cur].leaf)
  }

  /** Nothing longer than addr[..n] is live. */
  ghost predicate NothingBeyond(t: Table, addr: Prefix, n: nat) {
    forall i :: n < i <= |addr| ==> addr[..i] !in t
  }

  /** The best target among the first n candidates, addr[..0] to addr[..n - 1]. */
  function BestOf(t: Table, addr: Prefix, n: nat): Option<Any>
    requires n <= |addr| + 1
  {
    if n == 0 then None else Best(t, addr, n - 1)
  }

  /** How many candidates a lookup has settled. */
  function Settled(r: Searcher): nat {
    match r.stage
    case Fresh => 0
    case AtLeaf(last) => if last && r.pos < |r.addr| then |r.addr| + 1 else r.pos
    case AtTarget(last) => if last && r.pos < |r.addr| then |r.addr| + 1 else r.pos
    case AtChild => r.pos + 1
    case Answered => |r.addr| + 1
  }

  /** The answer is the longest match at the moment it was read. */
  ghost predicate Exact(log: Log, t0: Table, r: Searcher)
    requires r.when.at <= |log|
  {
    r.best == LongestMatch(TableAt(t0, log, r.when.at), r.addr)
  }

  /** The answer was live when it was read, and nothing longer was live at an earlier moment of the lookup. */
  ghost predicate Late(log: Log, t0: Table, r: Searcher)
    requires r.when.at <= |log| && r.when.clear <= |log|
  {
    && r.pos < |r.addr|
    && r.addr[..r.pos] in TableAt(t0, log, r.when.at)
    && r.best == Some(TableAt(t0, log, r.when.at)[r.addr[..r.pos]])
    && NothingBeyond(TableAt(t0, log, r.when.clear), r.addr, r.pos)
  }

  ghost predicate SearcherOk(nodes: Names, log: Log, t0: Table, r: Searcher) {
    (r.stage.Fresh? && r.cur == 0) ||
    (&& !r.stage.Fresh? && r.pos <= |r.addr| && r.addr[..r.pos] in nodes && nodes[r.addr[..r.pos]] == r.cur
     && r.when.from <= r.when.clear <= r.when.at <= |log| && r.when.from <= r.when.gap <= |log|
     && (r.stage.AtChild? || ((r.stage.AtLeaf? || r.stage.AtTarget?) && !r.stage.last) ==> r.pos < |r.addr|)
     && (if r.stage.Answered? then Exact(log, t0, r) || Late(log, t0, r)
         else
           && r.when.clear == r.when.at
           && r.best == BestOf(TableAt(t0, log, r.when.at), r.addr, Settled(r))
           && (r.pos < |r.addr| && Settled(r) == |r.addr| + 1 && !r.stage.AtChild? ==>
                 NothingBeyond(TableAt(t0, log, r.when.gap), r.addr, r.pos))))
  }

  ghost predicate ThreadOk(h: Heap, nodes: Names, log: Log, t0: Table, t: Thread) {
    match t
    case Registering(w) => WalkerOk(h, nodes, w)
    case LookingUp(r) => SearcherOk(nodes, log, t0, r)
  }

  /** Two registrations never hold the same private node. */
  ghost predicate Apart(v: Walker, w: Walker) {
    v.pc.Holding? && w.pc.Holding? ==> v.pc.private != w.pc.private
  }

  ghost predicate Inv(s: State, nodes: Names, t0: Table) {
    && Core(s.heap, nodes, s.log, t0)
    && (forall i :: 0 <= i < |s.threads| ==> ThreadOk(s.heap, nodes, s.log, t0, s.threads[i]))
    && (forall i, j :: 0 <= i < j < |s.threads| && s.threads[i].Registering? && s.threads[j].Registering? ==>
          Apart(s.threads[i].w, s.threads[j].w))
  }

  // ----- the three ways shared memory changes

  /** Allocating a private node. */
  lemma AllocKeeps(h: Heap, nodes: Names, log: Log, t0: Table)
    requires Core(h, nodes, log, t0)
    ensures Core(h + [BLANK], nodes, log, t0)
  {
    var h' := h + [BLANK];
    forall p {:trigger NodeOk(h', nodes, p)} | p in nodes ensures NodeOk(h', nodes, p) {
      assert NodeOk(h, nodes, p);
    }
    assert TableOf(h', nodes) == TableOf(h, nodes);
  }

  /** A missing node leaves no node below it. */
  lemma NothingBelow(h: Heap, nodes: Names, p: Prefix, b: bool)
    requires Shape(h, nodes) && p !in nodes
    ensures p + [b] !in nodes
  {
    assert (p + [b])[..|p|] == p;
    assert p + [b] in nodes ==> NodeOk(h, nodes, p + [b]);
  }

  /** Heap and names after linking blank node x under p, where there was none. */
  ghost predicate Links(h: Heap, nodes: Names, p: Prefix, b: bool, x: nat, h': Heap, nodes': Names)
    requires Named(h, nodes)
  {
    && p in nodes && p + [b] !in nodes && x < |h| && h[x] == BLANK && (forall q :: q in nodes ==> nodes[q] != x)
    && h' == h[nodes[p] := h[nodes[p]].WithChild(b, x)] && nodes' == nodes[p + [b] := x]
  }

  lemma LinkKeepsShape(h: Heap, nodes: Names, p: Prefix, b: bool, x: nat, h': Heap, nodes': Names)
    requires Shape(h, nodes) && Named(h, nodes) && Links(h, nodes, p, b, x, h', nodes')
    ensures Shape(h', nodes') && Named(h', nodes')
  {
    var pb := p + [b];
    NothingBelow(h, nodes, pb, false);
    NothingBelow(h, nodes, pb, true);
    assert pb[..|pb| - 1] == p;
    forall q {:trigger NodeOk(h', nodes', q)} | q in nodes' ensures NodeOk(h', nodes', q) {
      assert (q + [false])[..|q|] == q && (q + [true])[..|q|] == q;
      assert (q + [false])[|q|] == false && (q + [true])[|q|] == true;
      assert NodeOk(h, nodes, p);
      if q != pb { assert NodeOk(h, nodes, q); }
    }
  }

  lemma LinkKeeps(h: Heap, nodes: Names, log: Log, t0: Table, p: Prefix, b: bool, x: nat, h': Heap, nodes': Names)
    requires Core(h, nodes, log, t0) && Links(h, nodes, p, b, x, h', nodes')
    ensures Core(h', nodes', log, t0)
  {
    LinkKeepsShape(h, nodes, p, b, x, h', nodes');
    LinkKeepsTable(h, nodes, p, b, x, h', nodes');
  }

  lemma LinkKeepsTable(h: Heap, nodes: Names, p: Prefix, b: bool, x: nat, h': Heap, nodes': Names)
    requires Named(h, nodes) && Named(h', nodes') && Links(h, nodes, p, b, x, h', nodes')
    ensures TableOf(h', nodes') == TableOf(h, nodes)
  {
  }

  /** Setting the flag of a node changes no route. */
  lemma MarkKeeps(h: Heap, nodes: Names, log: Log, t0: Table, p: Prefix)
    requires Core(h, nodes, log, t0) && p in nodes
    ensures Core(h[nodes[p] := h[nodes[p]].(leaf := true)], nodes, log, t0)
  {
    var h' := h[nodes[p] := h[nodes[p]].(leaf := true)];
    StoreShape(h, nodes, p, h');
    assert TableOf(h', nodes) == TableOf(h, nodes);
  }

  /** Storing a target is the moment a registration takes effect. */
  lemma StoreKeeps(h: Heap, nodes: Names, log: Log, t0: Table, p: Prefix, val: Any)
    requires Core(h, nodes, log, t0) && p in nodes && h[nodes[p]].leaf
    ensures Core(h[nodes[p] := h[nodes[p]].(target := Some(val))], nodes, log + [Registration(p, val)], t0)
  {
    var h' := h[nodes[p] := h[nodes[p]].(target := Some(val))];
    StoreShape(h, nodes, p, h');
    assert TableOf(h', nodes) == TableOf(h, nodes)[p := val];
    RegisterSnoc(t0, log, Registration(p, val));
  }

  lemma StoreShape(h: Heap, nodes: Names, p: Prefix, h': Heap)
    requires Shape(h, nodes) && Named(h, nodes) && p in nodes && |h'| == |h|
    requires forall x :: 0 <= x < |h| ==> h'[x].zero == h[x].zero && h'[x].one == h[x].one
    ensures Shape(h', nodes)
  {
    forall q {:trigger NodeOk(h', nodes, q)} | q in nodes ensures NodeOk(h', nodes, q) {
      assert NodeOk(h, nodes, q);
    }
  }

  // ----- one step

  /** The names after a step of w. */
  ghost function NamesAfter(nodes: Names, w: Walker, m: Moved): Names {
    if w.pc.Holding? && m.walker.pc.Walking? && w.pos < |w.key|
    then nodes[w.key[..w.pos + 1] := w.pc.private] else nodes
  }

  /** A registration's own step. */
  lemma WalkerMoves(h: Heap, nodes: Names, log: Log, t0: Table, w: Walker)
    requires Core(h, nodes, log, t0) && WalkerOk(h, nodes, w)
    ensures var m := Write(h, log, w);
            var nodes' := NamesAfter(nodes, w, m);
            Core(m.heap, nodes', m.log, t0) && WalkerOk(m.heap, nodes', m.walker)
  {
    var m := Write(h, log, w);
    var p := w.key[..w.pos];
    assert NodeOk(h, nodes, p);
    if w.pos < |w.key| {
      var b := w.key[w.pos];
      assert w.key[..w.pos + 1] == p + [b];
      if w.pc.Walking? && h[w.cur].Child(b).None? {
        AllocKeeps(h, nodes, log, t0);
      } else if w.pc.Holding? && h[w.cur].Child(b).None? {
        LinkKeeps(h, nodes, log, t0, p, b, w.pc.private, m.heap, nodes[p + [b] := w.pc.private]);
      }
    } else {
      assert p == w.key;
      if w.pc.Walking? {
        MarkKeeps(h, nodes, log, t0, p);
      } else if w.pc.Marked? {
        StoreKeeps(h, nodes, log, t0, p, w.val);
      }
    }
  }

  /** A step of one registration leaves every other where it should be. */
  lemma OtherWalker(h: Heap, nodes: Names, log: Log, w: Walker, v: Walker)
    requires Shape(h, nodes) && WalkerOk(h, nodes, w) && WalkerOk(h, nodes, v) && Apart(v, w)
    ensures var m := Write(h, log, w);
            WalkerOk(m.heap, NamesAfter(nodes, w, m), v) && Apart(v, m.walker)
  {
    var p := w.key[..w.pos];
    assert NodeOk(h, nodes, p);
    if w.pos < |w.key| {
      assert w.key[..w.pos + 1] == p + [w.key[w.pos]];
    }
  }

  // ----- paths

  /** The node a path leads to. */
  function Reach(h: Heap, x: nat, p: Prefix): Option<nat>
    decreases |p|
  {
    if p == [] then Some(x)
    else if x >= |h| then None
    else match h[x].Child(p[0])
      case None => None
      case Some(y) => Reach(h, y, p[1..])
  }

  lemma {:induction false} ReachNamed(h: Heap, nodes: Names, p: Prefix, i: nat)
    requires Shape(h, nodes) && p in nodes && i <= |p| && p[..i] in nodes
    ensures Reach(h, nodes[p[..i]], p[i..]) == Some(nodes[p])
    decreases |p| - i
  {
    if i < |p| {
      PrefixNamed(h, nodes, p, i + 1);
      assert p[..i + 1] == p[..i] + [p[i]];
      assert NodeOk(h, nodes, p[..i]);
      assert p[i..][1..] == p[i + 1..];
      ReachNamed(h, nodes, p, i + 1);
    } else {
      assert p[..i] == p;
    }
  }

  lemma {:induction false} PrefixNamed(h: Heap, nodes: Names, p: Prefix, i: nat)
    requires Shape(h, nodes) && p in nodes && i <= |p|
    ensures p[..i] in nodes
  {
    if i < |p| {
      assert NodeOk(h, nodes, p);
      PrefixNamed(h, nodes, p[..|p| - 1], i);
      assert p[..|p| - 1][..i] == p[..i];
    } else {
      assert p[..i] == p;
    }
  }

  // ----- a lookup's step

  lemma BestOfStep(t: Table, addr: Prefix, n: nat)
    requires n <= |addr|
    ensures BestOf(t, addr, n + 1) == if addr[..n] in t then Some(t[addr[..n]]) else BestOf(t, addr, n)
  {
  }

  lemma BestOfAll(t: Table, addr: Prefix, n: nat)
    requires n <= |addr| && NothingBeyond(t, addr, n)
    ensures BestOf(t, addr, n + 1) == LongestMatch(t, addr)
  {
    BestIgnores(t, addr, n, |addr|);
  }

  /** What a node says about its prefix: live exactly if it has a target. */
  lemma NodeSays(h: Heap, nodes: Names, log: Log, t0: Table, p: Prefix)
    requires Core(h, nodes, log, t0) && p in nodes
    ensures p in RegisterAll(t0, log) <==> h[nodes[p]].target.Some?
    ensures p in RegisterAll(t0, log) ==> RegisterAll(t0, log)[p] == h[nodes[p]].target.value
  {
    assert p in TableOf(h, nodes) <==> h[nodes[p]].target.Some?;
  }

  /** What is dead now was dead before. */
  lemma DeadBefore(t0: Table, log: Log, m: nat, p: Prefix)
    requires m <= |log| && p !in RegisterAll(t0, log)
    ensures p !in TableAt(t0, log, m)
  {
    TablesGrow(t0, log, m);
  }

  /** A missing child leaves nothing live beyond its parent. */
  lemma NothingBelowMissing(h: Heap, nodes: Names, log: Log, t0: Table, addr: Prefix, n: nat)
    requires Core(h, nodes, log, t0) && n < |addr| && addr[..n + 1] !in nodes
    ensures NothingBeyond(RegisterAll(t0, log), addr, n)
  {
    forall i | n < i <= |addr| ensures addr[..i] !in RegisterAll(t0, log) {
      assert addr[..i][..n + 1] == addr[..n + 1];
      if addr[..i] in nodes { PrefixNamed(h, nodes, addr[..i], n + 1); }
      assert addr[..i] !in TableOf(h, nodes);
    }
  }

  /** A candidate found dead now adds nothing to what was best at an earlier moment. */
  lemma DeadCandidate(t0: Table, log: Log, addr: Prefix, n: nat, m: nat)
    requires m <= |log| && n <= |addr| && addr[..n] !in RegisterAll(t0, log)
    ensures BestOf(TableAt(t0, log, m), addr, n + 1) == BestOf(TableAt(t0, log, m), addr, n)
  {
    DeadBefore(t0, log, m, addr[..n]);
    BestOfStep(TableAt(t0, log, m), addr, n);
  }

  /** A lookup whose walk has ended and whose last node is dead has its answer. */
  lemma DeadEnd(nodes: Names, log: Log, t0: Table, r: Searcher)
    requires SearcherOk(nodes, log, t0, r) && (r.stage == AtLeaf(true) || r.stage == AtTarget(true))
    requires r.addr[..r.pos] !in RegisterAll(t0, log)
    ensures SearcherOk(nodes, log, t0, r.(stage := Answered))
  {
    if r.pos == |r.addr| {
      DeadCandidate(t0, log, r.addr, r.pos, r.when.at);
    }
    assert Exact(log, t0, r);
  }

  lemma LeafStep(h: Heap, nodes: Names, log: Log, t0: Table, r: Searcher)
    requires Core(h, nodes, log, t0) && SearcherOk(nodes, log, t0, r) && r.cur < |h| && r.stage.AtLeaf?
    ensures SearcherOk(nodes, log, t0, Read(h, |log|, r))
  {
    if !h[r.cur].leaf {
      NodeSays(h, nodes, log, t0, r.addr[..r.pos]);
      if r.stage.last {
        DeadEnd(nodes, log, t0, r);
      } else {
        DeadCandidate(t0, log, r.addr, r.pos, r.when.at);
      }
    }
  }

  /** Reading a target inside the loop: the best there is at this moment, so far. */
  lemma TargetStep(h: Heap, nodes: Names, log: Log, t0: Table, r: Searcher)
    requires Core(h, nodes, log, t0) && SearcherOk(nodes, log, t0, r) && r.cur < |h| && r.stage == AtTarget(false)
    ensures SearcherOk(nodes, log, t0, Read(h, |log|, r))
  {
    NodeSays(h, nodes, log, t0, r.addr[..r.pos]);
    assert log[..|log|] == log;
    if h[r.cur].target.None? {
      DeadCandidate(t0, log, r.addr, r.pos, r.when.at);
    } else {
      BestOfStep(RegisterAll(t0, log), r.addr, r.pos);
    }
  }

  /** Reading the target of the last node: the answer may be late if the walk ended early. */
  lemma LastTargetStep(h: Heap, nodes: Names, log: Log, t0: Table, r: Searcher)
    requires Core(h, nodes, log, t0) && SearcherOk(nodes, log, t0, r) && r.cur < |h| && r.stage == AtTarget(true)
    ensures SearcherOk(nodes, log, t0, Read(h, |log|, r))
  {
    NodeSays(h, nodes, log, t0, r.addr[..r.pos]);
    assert log[..|log|] == log;
    var r' := Read(h, |log|, r);
    if h[r.cur].target.None? {
      DeadEnd(nodes, log, t0, r);
    } else if r.pos == |r.addr| {
      BestOfStep(RegisterAll(t0, log), r.addr, r.pos);
      assert Exact(log, t0, r');
    } else {
      assert Late(log, t0, r');
    }
  }

  lemma ChildStep(h: Heap, nodes: Names, log: Log, t0: Table, r: Searcher)
    requires Core(h, nodes, log, t0) && SearcherOk(nodes, log, t0, r) && r.cur < |h| && r.stage.AtChild?
    ensures SearcherOk(nodes, log, t0, Read(h, |log|, r))
  {
    var p, b := r.addr[..r.pos], r.addr[r.pos];
    assert NodeOk(h, nodes, p);
    assert r.addr[..r.pos + 1] == p + [b];
    assert log[..|log|] == log;
    if h[r.cur].Child(b).None? {
      NothingBelowMissing(h, nodes, log, t0, r.addr, r.pos);
      var t := TableAt(t0, log, r.when.at);
      forall i | r.pos < i <= |r.addr| ensures r.addr[..i] !in t {
        DeadBefore(t0, log, r.when.at, r.addr[..i]);
      }
      BestOfAll(t, r.addr, r.pos);
    }
  }

  /** A lookup's own step. */
  lemma SearcherMoves(h: Heap, nodes: Names, log: Log, t0: Table, r: Searcher)
    requires Core(h, nodes, log, t0) && SearcherOk(nodes, log, t0, r) && r.cur < |h|
    ensures SearcherOk(nodes, log, t0, Read(h, |log|, r))
  {
    match r.stage
    case Fresh => assert r.addr[..0] == [];
    case AtLeaf(_) => LeafStep(h, nodes, log, t0, r);
    case AtTarget(last) => if last { LastTargetStep(h, nodes, log, t0, r); } else { TargetStep(h, nodes, log, t0, r); }
    case AtChild => ChildStep(h, nodes, log, t0, r);
    case Answered =>
  }

  /** Later stores and links do not disturb what a lookup has seen. */
  lemma OtherSearcher(nodes: Names, log: Log, t0: Table, r: Searcher, nodes': Names, log': Log)
    requires SearcherOk(nodes, log, t0, r) && log <= log'
    requires forall p :: p in nodes ==> p in nodes' && nodes'[p] == nodes[p]
    ensures SearcherOk(nodes', log', t0, r)
  {
    if !r.stage.Fresh? {
      assert log'[..r.when.at] == log[..r.when.at];
      assert log'[..r.when.clear] == log[..r.when.clear];
      assert log'[..r.when.gap] == log[..r.when.gap];
      assert Exact(log', t0, r) <==> Exact(log, t0, r);
      assert Late(log', t0, r) <==> Late(log, t0, r);
    }
  }

  /** A step of one thread leaves every other one in order. */
  lemma OtherOk(h: Heap, nodes: Names, log: Log, t0: Table, w: Walker, t: Thread)
    requires Core(h, nodes, log, t0) && WalkerOk(h, nodes, w) && ThreadOk(h, nodes, log, t0, t)
    requires t.Registering? ==> Apart(t.w, w)
    ensures var m := Write(h, log, w);
            && ThreadOk(m.heap, NamesAfter(nodes, w, m), m.log, t0, t)
            && (t.Registering? ==> Apart(t.w, m.walker))
  {
    var m := Write(h, log, w);
    if t.Registering? {
      OtherWalker(h, nodes, log, w, t.w);
    } else {
      NamesGrow(h, nodes, log, w);
      OtherSearcher(nodes, log, t0, t.r, NamesAfter(nodes, w, m), m.log);
    }
  }

  lemma NamesGrow(h: Heap, nodes: Names, log: Log, w: Walker)
    requires Shape(h, nodes) && WalkerOk(h, nodes, w)
    ensures var nodes' := NamesAfter(nodes, w, Write(h, log, w));
            forall p :: p in nodes ==> p in nodes' && nodes'[p] == nodes[p]
  {
    assert NodeOk(h, nodes, w.key[..w.pos]);
    if w.pos < |w.key| { assert w.key[..w.pos + 1] == w.key[..w.pos] + [w.key[w.pos]]; }
  }

  /** One step of any thread keeps the invariant. */
  lemma StepInv(s: State, i: nat, nodes: Names, t0: Table) returns (nodes': Names)
    requires Inv(s, nodes, t0)
    ensures Inv(Next(s, i), nodes', t0)
    ensures forall p :: p in nodes ==> p in nodes' && nodes'[p] == nodes[p]
    ensures nodes' != nodes ==> i < |s.threads| && s.threads[i].Registering? && s.threads[i].w.pc.Holding?
    ensures nodes' != nodes ==> forall p :: p in nodes' ==> p in nodes || p <= s.threads[i].w.key
  {
    nodes' := nodes;
    if i < |s.threads| {
      assert ThreadOk(s.heap, nodes, s.log, t0, s.threads[i]);
      if s.threads[i].Registering? {
        nodes' := WalkerInv(s, i, nodes, t0);
      } else {
        assert NodeOk(s.heap, nodes, []);
        SearcherMoves(s.heap, nodes, s.log, t0, s.threads[i].r);
      }
    }
  }

  lemma WalkerInv(s: State, i: nat, nodes: Names, t0: Table) returns (nodes': Names)
    requires Inv(s, nodes, t0) && i < |s.threads| && s.threads[i].Registering?
    ensures Inv(Next(s, i), nodes', t0)
    ensures forall p :: p in nodes ==> p in nodes' && nodes'[p] == nodes[p]
    ensures nodes' != nodes ==> i < |s.threads| && s.threads[i].Registering? && s.threads[i].w.pc.Holding?
    ensures nodes' != nodes ==> forall p :: p in nodes' ==> p in nodes || p <= s.threads[i].w.key
  {
    var w, s' := s.threads[i].w, Next(s, i);
    assert ThreadOk(s.heap, nodes, s.log, t0, s.threads[i]);
    nodes' := NamesAfter(nodes, w, Write(s.heap, s.log, w));
    WalkerMoves(s.heap, nodes, s.log, t0, w);
    NamesGrow(s.heap, nodes, s.log, w);
    forall j | 0 <= j < |s.threads| && j != i
      ensures ThreadOk(s'.heap, nodes', s'.log, t0, s'.threads[j])
      ensures s'.threads[j].Registering? ==> Apart(s'.threads[j].w, s'.threads[i].w)
    {
      assert s.threads[j].Registering? ==> Apart(s.threads[j].w, w) by {
        if s.threads[j].Registering? {
          if j < i { assert Apart(s.threads[j].w, w); } else { assert Apart(w, s.threads[j].w); }
        }
      }
      OtherOk(s.heap, nodes, s.log, t0, w, s.threads[j]);
    }
  }

  // ----- whole runs

  lemma {:induction false} RunInv(s: State, schedule: seq<nat>, nodes: Names, t0: Table) returns (nodes': Names)
    requires Inv(s, nodes, t0)
    ensures Inv(Run(s, schedule), nodes', t0)
    ensures forall p :: p in nodes ==> p in nodes' && nodes'[p] == nodes[p]
    decreases |schedule|
  {
    nodes' := nodes;
    if schedule != [] {
      nodes' := StepInv(s, schedule[0], nodes, t0);
      nodes' := RunInv(Next(s, schedule[0]), schedule[1..], nodes', t0);
    }
  }

  /** How often thread t makes registration r: once or never; with `done`, only if it has finished. */
  function Makes(t: Thread, done: bool, r: Registration): nat {
    if t.Registering? && (done ==> t.w.pc.Done?) && Registration(t.w.key, t.w.val) == r then 1 else 0
  }

  function Times(ts: seq<Thread>, done: bool, r: Registration): nat {
    if ts == [] then 0 else Times(ts[..|ts| - 1], done, r) + Makes(ts[|ts| - 1], done, r)
  }

  /** Threads that have not taken a step. */
  ghost predicate NotBegun(ts: seq<Thread>) {
    forall i :: 0 <= i < |ts| ==>
      match ts[i]
      case Registering(w) => w == Walker(w.key, w.val, 0, 0, Walking)
      case LookingUp(r) => r.stage.Fresh? && r.cur == 0
  }

  /** A trie at rest: a node with a target has its flag set. */
  ghost predicate AtRest(h: Heap, nodes: Names) {
    Shape(h, nodes) && Named(h, nodes) && forall p :: p in nodes && h[nodes[p]].target.Some? ==> h[nodes[p]].leaf
  }

  lemma StartInv(h: Heap, nodes: Names, ts: seq<Thread>)
    requires AtRest(h, nodes) && NotBegun(ts)
    ensures Inv(State(h, [], ts), nodes, TableOf(h, nodes))
  {
    assert NodeOk(h, nodes, []);
    forall i | 0 <= i < |ts| ensures ThreadOk(h, nodes, [], TableOf(h, nodes), ts[i]) {
      if ts[i].Registering? { assert ts[i].w.key[..0] == []; }
    }
  }

  lemma {:induction false} NoneFinished(ts: seq<Thread>, r: Registration)
    requires NotBegun(ts)
    ensures Times(ts, true, r) == 0
  {
    if ts != [] { NoneFinished(ts[..|ts| - 1], r); }
  }

  lemma {:induction false} TimesUpdate(ts: seq<Thread>, i: nat, t: Thread, done: bool, r: Registration)
    requires i < |ts|
    ensures Times(ts[i := t], done, r) == Times(ts, done, r) - Makes(ts[i], done, r) + Makes(t, done, r)
  {
    var n := |ts| - 1;
    if i < n {
      TimesUpdate(ts[..n], i, t, done, r);
      assert ts[i := t][..n] == ts[..n][i := t];
    } else {
      assert ts[i := t][..n] == ts[..n];
    }
  }

  /** A step finishes a registration exactly if it stores its target. */
  lemma StepMakes(s: State, i: nat, r: Registration)
    requires i < |s.threads|
    ensures var s' := Next(s, i);
            && |s'.threads| == |s.threads| && s'.threads == s.threads[i := s'.threads[i]]
            && Makes(s'.threads[i], false, r) == Makes(s.threads[i], false, r)
            && multiset(s'.log)[r] == multiset(s.log)[r] - Makes(s.threads[i], true, r) + Makes(s'.threads[i], true, r)
  {
  }

  /** The log holds exactly the finished registrations. */
  lemma StepLogs(s: State, i: nat, r: Registration)
    requires multiset(s.log)[r] == Times(s.threads, true, r)
    ensures multiset(Next(s, i).log)[r] == Times(Next(s, i).threads, true, r)
    ensures Times(Next(s, i).threads, false, r) == Times(s.threads, false, r)
  {
    if i < |s.threads| {
      StepMakes(s, i, r);
      TimesUpdate(s.threads, i, Next(s, i).threads[i], true, r);
      TimesUpdate(s.threads, i, Next(s, i).threads[i], false, r);
    }
  }

  lemma {:induction false} RunLogs(s: State, schedule: seq<nat>, r: Registration)
    requires multiset(s.log)[r] == Times(s.threads, true, r)
    ensures var s' := Run(s, schedule);
            && multiset(s'.log)[r] == Times(s'.threads, true, r)
            && Times(s'.threads, false, r) == Times(s.threads, false, r)
    decreases |schedule|
  {
    if schedule != [] {
      StepLogs(s, schedule[0], r);
      RunLogs(Next(s, schedule[0]), schedule[1..], r);
    }
  }

  lemma {:induction false} AllFinished(ts: seq<Thread>, r: Registration)
    requires forall t :: t in ts && t.Registering? ==> t.w.pc.Done?
    ensures Times(ts, true, r) == Times(ts, false, r)
  {
    if ts != [] { AllFinished(ts[..|ts| - 1], r); }
  }

  lemma {:induction false} FinishedIsMade(ts: seq<Thread>, r: Registration)
    ensures Times(ts, true, r) <= Times(ts, false, r)
    ensures Times(ts, false, r) > 0 ==>
              exists i :: 0 <= i < |ts| && ts[i].Registering? && Registration(ts[i].w.key, ts[i].w.val) == r
  {
    if ts != [] {
      var n := |ts| - 1;
      FinishedIsMade(ts[..n], r);
      if Times(ts[..n], false, r) > 0 {
        var i :| 0 <= i < n && ts[..n][i].Registering? && Registration(ts[..n][i].w.key, ts[..n][i].w.val) == r;
        assert ts[i] == ts[..n][i];
      }
    }
  }

  /** Threads keep their keys, values and addresses for ever. */
  lemma {:induction false} RunKeepsTasks(s: State, schedule: seq<nat>, i: nat)
    requires i < |s.threads|
    ensures var s' := Run(s, schedule);
            && |s'.threads| == |s.threads|
            && match s.threads[i]
               case Registering(w) =>
                 s'.threads[i].Registering? && s'.threads[i].w.key == w.key && s'.threads[i].w.val == w.val
               case LookingUp(r) => s'.threads[i].LookingUp? && s'.threads[i].r.addr == r.addr
    decreases |schedule|
  {
    if schedule != [] {
      RunKeepsTasks(Next(s, schedule[0]), schedule[1..], i);
    }
  }

  /** At every moment of every run, each registration is on the node that the bits it has read lead to. */
  lemma {:induction false} WalkersOnPath(h: Heap, nodes: Names, ts: seq<Thread>, schedule: seq<nat>, i: nat)
    requires AtRest(h, nodes) && NotBegun(ts) && i < |ts| && ts[i].Registering?
    ensures var s := Run(State(h, [], ts), schedule);
            && |s.threads| == |ts| && s.threads[i].Registering?
            && var w := s.threads[i].w;
               w.key == ts[i].w.key && w.pos <= |w.key| && Reach(s.heap, 0, w.key[..w.pos]) == Some(w.cur)
  {
    var s0 := State(h, [], ts);
    var s := Run(s0, schedule);
    StartInv(h, nodes, ts);
    var nodes' := RunInv(s0, schedule, nodes, TableOf(h, nodes));
    RunKeepsTasks(s0, schedule, i);
    var w := s.threads[i].w;
    assert ThreadOk(s.heap, nodes', s.log, TableOf(h, nodes), s.threads[i]);
    var p := w.key[..w.pos];
    assert p[..0] == [] && p[0..] == p;
    ReachNamed(s.heap, nodes', p, 0);
  }

  /** A child pointer, once written, is never written again. */
  lemma {:induction false} LinksAreFinal(s: State, schedule: seq<nat>, x: nat, b: bool)
    requires x < |s.heap| && s.heap[x].Child(b).Some?
    ensures x < |Run(s, schedule).heap| && Run(s, schedule).heap[x].Child(b) == s.heap[x].Child(b)
    decreases |schedule|
  {
    if schedule != [] {
      LinksAreFinal(Next(s, schedule[0]), schedule[1..], x, b);
    }
  }

  // ----- registrations take effect one after the other

  /** The walk of lookup over the rest of an address. */
  function Lookup(h: Heap, x: nat, a: Prefix, best: Option<Any>): Option<Any>
    decreases |a|
  {
    if x >= |h| then best
    else
      var best' := if h[x].leaf && h[x].target.Some? then h[x].target else best;
      if a == [] then best'
      else match h[x].Child(a[0])
        case None => best'
        case Some(y) => Lookup(h, y, a[1..], best')
  }

  /** Lookup finds the longest live prefix of the table the heap stands for. */
  lemma {:induction false} LookupIsBest(h: Heap, nodes: Names, a: Prefix, i: nat, best: Option<Any>)
    requires Shape(h, nodes) && Named(h, nodes) && i <= |a| && a[..i] in nodes
    requires best == if i == 0 then None else Best(TableOf(h, nodes), a, i - 1)
    ensures Lookup(h, nodes[a[..i]], a[i..], best) == LongestMatch(TableOf(h, nodes), a)
    decreases |a| - i
  {
    var best' := Best(TableOf(h, nodes), a, i);
    BestStep(h, nodes, a, i, best);
    assert NodeOk(h, nodes, a[..i]);
    if i < |a| {
      assert a[..i + 1] == a[..i] + [a[i]];
      assert a[i..][1..] == a[i + 1..];
      if a[..i + 1] in nodes {
        LookupIsBest(h, nodes, a, i + 1, best');
      } else {
        NothingLonger(h, nodes, a, i);
      }
    }
  }

  lemma NothingLonger(h: Heap, nodes: Names, a: Prefix, i: nat)
    requires Shape(h, nodes) && Named(h, nodes) && i < |a| && a[..i + 1] !in nodes
    ensures Best(TableOf(h, nodes), a, i) == LongestMatch(TableOf(h, nodes), a)
  {
    var t := TableOf(h, nodes);
    forall j | i < j <= |a| ensures a[..j] !in t {
      assert a[..j][..i + 1] == a[..i + 1];
      if a[..j] in nodes {
        PrefixNamed(h, nodes, a[..j], i + 1);
      }
    }
    BestIgnores(t, a, i, |a|);
  }

  lemma BestStep(h: Heap, nodes: Names, a: Prefix, i: nat, best: Option<Any>)
    requires Named(h, nodes) && i <= |a| && a[..i] in nodes
    requires best == if i == 0 then None else Best(TableOf(h, nodes), a, i - 1)
    ensures var n := h[nodes[a[..i]]];
            (if n.leaf && n.target.Some? then n.target else best) == Best(TableOf(h, nodes), a, i)
  {
  }

  /**
    At every moment of every run the trie answers as the table in which the finished registrations
    were made one after the other, in the order of their target stores. Of two registrations of one
    prefix the later store wins.
   */
  lemma {:induction false} RegistrationsLinearize(h: Heap, nodes: Names, ts: seq<Thread>, schedule: seq<nat>, a: Prefix)
    requires AtRest(h, nodes) && NotBegun(ts)
    ensures var s := Run(State(h, [], ts), schedule);
            Lookup(s.heap, 0, a, None) == LongestMatch(RegisterAll(TableOf(h, nodes), s.log), a)
  {
    var s0 := State(h, [], ts);
    var s := Run(s0, schedule);
    StartInv(h, nodes, ts);
    var nodes' := RunInv(s0, schedule, nodes, TableOf(h, nodes));
    assert a[..0] == [] && a[0..] == a;
    LookupIsBest(s.heap, nodes', a, 0, None);
  }

  /** The log is the finished registrations, each as often as it was made: all of them, once all are done. */
  lemma {:induction false} LogIsFinished(h: Heap, ts: seq<Thread>, schedule: seq<nat>, r: Registration)
    requires NotBegun(ts)
    ensures var s := Run(State(h, [], ts), schedule);
            && multiset(s.log)[r] == Times(s.threads, true, r) <= Times(ts, false, r)
            && ((forall t :: t in s.threads && t.Registering? ==> t.w.pc.Done?) ==>
                  multiset(s.log)[r] == Times(ts, false, r))
  {
    var s0 := State(h, [], ts);
    var s := Run(s0, schedule);
    NoneFinished(ts, r);
    RunLogs(s0, schedule, r);
    FinishedIsMade(s.threads, r);
    if forall t :: t in s.threads && t.Registering? ==> t.w.pc.Done? { AllFinished(s.threads, r); }
  }

  ghost predicate DistinctKeys(regs: Log) {
    forall i, j :: 0 <= i < j < |regs| ==> regs[i].key != regs[j].key
  }

  /** With distinct keys the table does not depend on the order of the stores. */
  lemma {:induction false} OrderIsIrrelevant(t: Table, regs: Log, log: Log)
    requires DistinctKeys(regs) && multiset(log) == multiset(regs)
    ensures RegisterAll(t, log) == RegisterAll(t, regs)
    decreases |regs|
  {
    if regs == [] {
      assert |multiset(log)| == |multiset(regs)|;
    } else {
      var n := |regs| - 1;
      var last := regs[n];
      assert regs == regs[..n] + [last];
      var k := TakeOut(log, last, multiset(regs[..n]));
      var rest := log[..k] + log[k + 1..];
      OrderIsIrrelevant(t, regs[..n], rest);
      forall r | r in rest ensures r.key != last.key {
        assert r in multiset(rest) && r in regs[..n];
      }
      assert log == log[..k] + [last] + log[k + 1..];
      MoveLast(t, log[..k], last, log[k + 1..]);
    }
  }

  lemma TakeOut(log: Log, r: Registration, others: multiset<Registration>) returns (k: nat)
    requires multiset(log) == others + multiset{r}
    ensures k < |log| && log[k] == r && multiset(log[..k] + log[k + 1..]) == others
  {
    assert r in multiset(log);
    k :| 0 <= k < |log| && log[k] == r;
    assert log == log[..k] + [r] + log[k + 1..];
    var rest := log[..k] + log[k + 1..];
    forall x ensures multiset(rest)[x] == others[x] {
      assert multiset(log)[x] == multiset(log[..k])[x] + multiset{r}[x] + multiset(log[k + 1..])[x];
      assert multiset(log)[x] == others[x] + multiset{r}[x];
    }
  }

  /** A registration whose key does not occur after it may as well come last. */
  lemma {:induction false} MoveLast(t: Table, before: Log, r: Registration, after: Log)
    requires forall x :: x in after ==> x.key != r.key
    ensures RegisterAll(t, before + [r] + after) == RegisterAll(t, before + after)[r.key := r.val]
    decreases |after|
  {
    if after == [] {
      assert before + [r] + after == before + [r] && before + after == before;
      RegisterSnoc(t, before, r);
    } else {
      var n := |after| - 1;
      var init, x := after[..n], after[n];
      assert before + [r] + after == (before + [r] + init) + [x] && before + after == (before + init) + [x];
      MoveLast(t, before, r, init);
      RegisterSnoc(t, before + [r] + init, x);
      RegisterSnoc(t, before + init, x);
    }
  }
}
