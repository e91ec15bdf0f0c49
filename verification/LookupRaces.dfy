/**
  The schedule that makes a lookup miss the longest match: one registration creates the node of a
  short prefix, the lookup passes by and finds nothing below, a longer prefix is registered in full,
  then the short one, and the lookup checks its last node.
 */
module LookupRaces {
  import opened Bytes
  import opened Prefixes
  import opened Tables
  import opened ConcurrentRegister
  import opened ConcurrentLookup

  lemma {:induction false} RunAppend(s: State, a: seq<nat>, b: seq<nat>)
    ensures Run(s, a + b) == Run(Run(s, a), b)
    decreases |a|
  {
    if a == [] {
      assert a + b == b;
    } else {
      assert (a + b)[1..] == a[1..] + b;
      RunAppend(Next(s, a[0]), a[1..], b);
    }
  }

  lemma RunOne(s: State, i: nat)
    ensures Run(s, [i]) == Next(s, i)
  {
    assert [i][1..] == [];
    assert Run(Next(s, i), []) == Next(s, i);
  }

  lemma RunTwo(s: State, i: nat)
    ensures Run(s, [i, i]) == Next(Next(s, i), i)
  {
    assert [i, i][1..] == [i];
    RunOne(Next(s, i), i);
  }

  /** Thread i of s', a walker on its way, is all that differs from s, besides new nodes on the way to its key. */
  ghost predicate Descended(s: State, nodes: Names, s': State, nodes': Names, i: nat, pos: nat) {
    && i < |s.threads| && s.threads[i].Registering?
    && s'.log == s.log
    && (forall p :: p in nodes ==> p in nodes' && nodes'[p] == nodes[p])
    && (forall p :: p in nodes' ==> p in nodes || p <= s.threads[i].w.key)
    && var w := s.threads[i].w;
       && pos <= |w.key| && w.key[..pos] in nodes'
       && s'.threads == s.threads[i := Registering(Walker(w.key, w.val, pos, nodes'[w.key[..pos]], Walking))]
  }

  /** One bit of a walk along existing nodes. */
  lemma FollowBit(s: State, nodes: Names, t0: Table, i: nat)
    requires Inv(s, nodes, t0) && i < |s.threads| && s.threads[i].Registering?
    requires var w := s.threads[i].w; w.pc.Walking? && w.pos < |w.key| && w.key[..w.pos + 1] in nodes
    ensures Inv(Next(s, i), nodes, t0) && Descended(s, nodes, Next(s, i), nodes, i, s.threads[i].w.pos + 1)
  {
    var w := s.threads[i].w;
    assert ThreadOk(s.heap, nodes, s.log, t0, s.threads[i]);
    assert NodeOk(s.heap, nodes, w.key[..w.pos]);
    assert w.key[..w.pos + 1] == w.key[..w.pos] + [w.key[w.pos]];
    var n1 := StepInv(s, i, nodes, t0);
  }

  /** One bit of a walk that has to create its node: allocation, */
  lemma AllocBit(s: State, nodes: Names, t0: Table, i: nat)
    requires Inv(s, nodes, t0) && i < |s.threads| && s.threads[i].Registering?
    requires var w := s.threads[i].w; w.pc.Walking? && w.pos < |w.key| && w.key[..w.pos + 1] !in nodes
    ensures var w := s.threads[i].w;
            && Inv(Next(s, i), nodes, t0)
            && Next(s, i) == State(s.heap + [BLANK], s.log, s.threads[i := Registering(w.(pc := Holding(|s.heap|)))])
  {
    var w := s.threads[i].w;
    assert ThreadOk(s.heap, nodes, s.log, t0, s.threads[i]);
    assert NodeOk(s.heap, nodes, w.key[..w.pos]);
    assert w.key[..w.pos + 1] == w.key[..w.pos] + [w.key[w.pos]];
    var n1 := StepInv(s, i, nodes, t0);
  }

  /** then a compare-and-swap that succeeds. */
  lemma LinkBit(s: State, nodes: Names, t0: Table, i: nat) returns (nodes': Names)
    requires Inv(s, nodes, t0) && i < |s.threads| && s.threads[i].Registering?
    requires var w := s.threads[i].w; w.pc.Holding? && w.pos < |w.key| && w.key[..w.pos + 1] !in nodes
    ensures Inv(Next(s, i), nodes', t0) && Descended(s, nodes, Next(s, i), nodes', i, s.threads[i].w.pos + 1)
  {
    var w := s.threads[i].w;
    assert ThreadOk(s.heap, nodes, s.log, t0, s.threads[i]);
    assert NodeOk(s.heap, nodes, w.key[..w.pos]);
    assert w.key[..w.pos + 1] == w.key[..w.pos] + [w.key[w.pos]];
    nodes' := StepInv(s, i, nodes, t0);
    assert ThreadOk(Next(s, i).heap, nodes', s.log, t0, Next(s, i).threads[i]);
  }

  lemma CreateBit(s: State, nodes: Names, t0: Table, i: nat) returns (nodes': Names)
    requires Inv(s, nodes, t0) && i < |s.threads| && s.threads[i].Registering?
    requires var w := s.threads[i].w; w.pc.Walking? && w.pos < |w.key| && w.key[..w.pos + 1] !in nodes
    ensures var s' := Next(Next(s, i), i);
            Inv(s', nodes', t0) && Descended(s, nodes, s', nodes', i, s.threads[i].w.pos + 1)
  {
    AllocBit(s, nodes, t0, i);
    nodes' := LinkBit(Next(s, i), nodes, t0, i);
  }

  /** A walk that nobody disturbs, down to the node of its key. */
  lemma {:induction false} Descend(s: State, nodes: Names, t0: Table, i: nat) returns (go: seq<nat>, nodes': Names)
    requires Inv(s, nodes, t0) && i < |s.threads| && s.threads[i].Registering? && s.threads[i].w.pc.Walking?
    ensures Inv(Run(s, go), nodes', t0) && Descended(s, nodes, Run(s, go), nodes', i, |s.threads[i].w.key|)
    decreases |s.threads[i].w.key| - s.threads[i].w.pos
  {
    var w := s.threads[i].w;
    assert ThreadOk(s.heap, nodes, s.log, t0, s.threads[i]);
    if w.pos == |w.key| {
      go, nodes' := [], nodes;
    } else {
      var bit, s1, n1 := [i], Next(s, i), nodes;
      if w.key[..w.pos + 1] in nodes {
        FollowBit(s, nodes, t0, i);
        RunOne(s, i);
      } else {
        bit, s1 := [i, i], Next(Next(s, i), i);
        n1 := CreateBit(s, nodes, t0, i);
        RunTwo(s, i);
      }
      var more;
      more, nodes' := Descend(s1, n1, t0, i);
      go := bit + more;
      RunAppend(s, bit, more);
      DescendedOn(s, nodes, s1, n1, Run(s1, more), nodes', i);
    }
  }

  lemma DescendedOn(s: State, nodes: Names, s1: State, n1: Names, s2: State, n2: Names, i: nat)
    requires i < |s.threads| && s.threads[i].Registering? && s.threads[i].w.pos < |s.threads[i].w.key|
    requires Descended(s, nodes, s1, n1, i, s.threads[i].w.pos + 1)
    requires Descended(s1, n1, s2, n2, i, |s.threads[i].w.key|)
    ensures Descended(s, nodes, s2, n2, i, |s.threads[i].w.key|)
  {
  }

  /** The two stores at the end of a registration. */
  lemma Finish(s: State, nodes: Names, t0: Table, i: nat)
    requires Inv(s, nodes, t0) && i < |s.threads| && s.threads[i].Registering?
    requires s.threads[i].w.pc.Walking? && s.threads[i].w.pos == |s.threads[i].w.key|
    ensures var s', w := Run(s, [i, i]), s.threads[i].w;
            && Inv(s', nodes, t0) && s'.log == s.log + [TaskOf(w)]
            && s'.threads == s.threads[i := Registering(w.(pc := Done))]
  {
    var w := s.threads[i].w;
    assert ThreadOk(s.heap, nodes, s.log, t0, s.threads[i]);
    RunTwo(s, i);
    var n1 := StepInv(s, i, nodes, t0);
    var n2 := StepInv(Next(s, i), i, n1, t0);
  }

  /** s' is s, but for the lookup of thread k, which has come to the leaf check at depth d. */
  ghost predicate Searched(s: State, nodes: Names, s': State, k: nat, d: nat, last: bool) {
    && s'.heap == s.heap && s'.log == s.log && k < |s.threads| == |s'.threads|
    && s'.threads == s.threads[k := s'.threads[k]] && s.threads[k].LookingUp? && s'.threads[k].LookingUp?
    && var r, r' := s.threads[k].r, s'.threads[k].r;
       && r'.stage == AtLeaf(last) && r'.pos == d <= |r.addr| && r'.addr == r.addr && r'.when.from == r.when.from
       && r.addr[..d] in nodes && r'.cur == nodes[r.addr[..d]]
  }

  /** Leaf check and, if there is one, target: on to the child, the same node and everything else as before. */
  lemma ToChild(s: State, nodes: Names, t0: Table, k: nat) returns (go: seq<nat>)
    requires Inv(s, nodes, t0) && k < |s.threads| && s.threads[k].LookingUp? && s.threads[k].r.stage == AtLeaf(false)
    ensures var s' := Run(s, go);
            && Inv(s', nodes, t0) && s'.heap == s.heap && s'.log == s.log && k < |s'.threads| == |s.threads|
            && s'.threads == s.threads[k := s'.threads[k]] && s'.threads[k].LookingUp?
            && var r, r' := s.threads[k].r, s'.threads[k].r;
               && r'.stage == AtChild && r'.addr == r.addr && r'.pos == r.pos && r'.cur == r.cur
               && r'.when.from == r.when.from
  {
    assert ThreadOk(s.heap, nodes, s.log, t0, s.threads[k]);
    assert NodeOk(s.heap, nodes, s.threads[k].r.addr[..s.threads[k].r.pos]);
    var n1 := StepInv(s, k, nodes, t0);
    if s.heap[s.threads[k].r.cur].leaf {
      go := [k, k];
      RunTwo(s, k);
      var n2 := StepInv(Next(s, k), k, nodes, t0);
    } else {
      go := [k];
      RunOne(s, k);
    }
  }

  /** The child: on to it, or to the last check if there is none. */
  lemma ChildBit(s: State, nodes: Names, t0: Table, k: nat)
    requires Inv(s, nodes, t0) && k < |s.threads| && s.threads[k].LookingUp? && s.threads[k].r.stage == AtChild
    ensures var s', r := Next(s, k), s.threads[k].r;
            && r.pos < |r.addr| && Inv(s', nodes, t0)
            && (if r.addr[..r.pos + 1] in nodes then Searched(s, nodes, s', k, r.pos + 1, r.pos + 1 == |r.addr|)
                else Searched(s, nodes, s', k, r.pos, true))
  {
    var r := s.threads[k].r;
    assert ThreadOk(s.heap, nodes, s.log, t0, s.threads[k]);
    assert NodeOk(s.heap, nodes, r.addr[..r.pos]);
    assert r.addr[..r.pos + 1] == r.addr[..r.pos] + [r.addr[r.pos]];
    var n1 := StepInv(s, k, nodes, t0);
  }

  lemma SearchBit(s: State, nodes: Names, t0: Table, k: nat) returns (go: seq<nat>)
    requires Inv(s, nodes, t0) && k < |s.threads| && s.threads[k].LookingUp? && s.threads[k].r.stage == AtLeaf(false)
    ensures var s', r := Run(s, go), s.threads[k].r;
            && r.pos < |r.addr| && Inv(s', nodes, t0)
            && (if r.addr[..r.pos + 1] in nodes then Searched(s, nodes, s', k, r.pos + 1, r.pos + 1 == |r.addr|)
                else Searched(s, nodes, s', k, r.pos, true))
  {
    var first := ToChild(s, nodes, t0, k);
    ChildBit(Run(s, first), nodes, t0, k);
    go := first + [k];
    RunAppend(s, first, [k]);
    RunOne(Run(s, first), k);
  }

  /** Thread k looks up an address whose nodes end at depth d, and has not come further than that. */
  ghost predicate Bound(s: State, nodes: Names, k: nat, d: nat) {
    && k < |s.threads| && s.threads[k].LookingUp? && s.threads[k].r.stage == AtLeaf(false)
    && s.threads[k].r.pos <= d && Ends(nodes, s.threads[k].r.addr, d)
  }

  ghost predicate Ends(nodes: Names, addr: Prefix, d: nat) {
    d < |addr| && addr[..d + 1] !in nodes && forall i :: 0 <= i <= d ==> addr[..i] in nodes
  }

  lemma NodesEnd(h: Heap, nodes: Names, addr: Prefix, d: nat)
    requires Shape(h, nodes) && d < |addr| && addr[..d] in nodes && addr[..d + 1] !in nodes
    ensures Ends(nodes, addr, d)
  {
    forall i | 0 <= i <= d ensures addr[..i] in nodes {
      PrefixNamed(h, nodes, addr[..d], i);
      assert addr[..d][..i] == addr[..i];
    }
  }

  /** One bit of it: closer to the end, or there. */
  lemma BoundBit(s: State, nodes: Names, t0: Table, k: nat, d: nat) returns (go: seq<nat>)
    requires Inv(s, nodes, t0) && Bound(s, nodes, k, d)
    ensures var s', pos := Run(s, go), s.threads[k].r.pos;
            && Inv(s', nodes, t0)
            && (if pos < d then Bound(s', nodes, k, d) && Searched(s, nodes, s', k, pos + 1, false)
                else Searched(s, nodes, s', k, d, true))
  {
    go := SearchBit(s, nodes, t0, k);
  }

  /** A lookup, up to where the nodes of its address end. */
  lemma {:induction false} Search(s: State, nodes: Names, t0: Table, k: nat, d: nat) returns (go: seq<nat>)
    requires Inv(s, nodes, t0) && Bound(s, nodes, k, d)
    ensures Inv(Run(s, go), nodes, t0) && Searched(s, nodes, Run(s, go), k, d, true)
    decreases d - s.threads[k].r.pos
  {
    var pos := s.threads[k].r.pos;
    go := BoundBit(s, nodes, t0, k, d);
    if pos < d {
      var s1 := Run(s, go);
      var more := Search(s1, nodes, t0, k, d);
      SearchedOn(s, nodes, s1, Run(s1, more), k, pos + 1, d);
      RunAppend(s, go, more);
      go := go + more;
    }
  }

  lemma SearchedOn(s: State, nodes: Names, s1: State, s2: State, k: nat, d1: nat, d2: nat)
    requires Searched(s, nodes, s1, k, d1, false) && Searched(s1, nodes, s2, k, d2, true)
    ensures Searched(s, nodes, s2, k, d2, true)
  {
  }

  /** Thread i stands at the node of its key, about to store. */
  ghost predicate AtKey(s: State, nodes: Names, i: nat, w: Walker) {
    && i < |s.threads| && w.key in nodes
    && s.threads[i] == Registering(Walker(w.key, w.val, |w.key|, nodes[w.key], Walking))
  }

  /** Thread k, begun at `from`, has found no child below depth d and is about to check its last node. */
  ghost predicate Stuck(s: State, nodes: Names, k: nat, addr: Prefix, d: nat, from: nat) {
    && k < |s.threads| && d < |addr| && addr[..d] in nodes && s.threads[k].LookingUp?
    && var r := s.threads[k].r;
       r.addr == addr && r.stage == AtLeaf(true) && r.pos == d && r.when.from == from && r.cur == nodes[addr[..d]]
  }

  /** Nothing but threads i and k differs. */
  ghost predicate OnlyMoved(s: State, s': State, i: nat, k: nat) {
    && |s'.threads| == |s.threads|
    && forall x :: 0 <= x < |s.threads| && x != i && x != k ==> s'.threads[x] == s.threads[x]
  }

  /** Phase one: a walker creates the node of its key, */
  lemma Arrive(s: State, nodes: Names, t0: Table, i: nat, k: nat, w: Walker, addr: Prefix)
    returns (go: seq<nat>, nodes': Names)
    requires Inv(s, nodes, t0) && i < |s.threads| && s.threads[i] == Registering(w) && w.pc.Walking? && i != k
    requires w.key <= addr && |w.key| < |addr| && addr[..|w.key| + 1] !in nodes
    ensures var s' := Run(s, go);
            && Inv(s', nodes', t0) && s'.log == s.log && OnlyMoved(s, s', i, i) && AtKey(s', nodes', i, w)
            && addr[..|w.key|] == w.key && addr[..|w.key| + 1] !in nodes'
  {
    go, nodes' := Descend(s, nodes, t0, i);
    assert w.key[..|w.key|] == w.key && addr[..|w.key|] == w.key;
  }

  /** and a lookup passes by and finds nothing below. */
  lemma PassBy(s: State, nodes: Names, t0: Table, k: nat, addr: Prefix, d: nat) returns (go: seq<nat>)
    requires Inv(s, nodes, t0) && k < |s.threads| && s.threads[k].LookingUp?
    requires s.threads[k].r.stage.Fresh? && s.threads[k].r.addr == addr
    requires d < |addr| && addr[..d] in nodes && addr[..d + 1] !in nodes
    ensures var s' := Run(s, go);
            && Inv(s', nodes, t0) && s'.log == s.log && OnlyMoved(s, s', k, k) && Stuck(s', nodes, k, addr, d, |s.log|)
  {
    assert ThreadOk(s.heap, nodes, s.log, t0, s.threads[k]);
    assert NodeOk(s.heap, nodes, []);
    var s1 := Next(s, k);
    var n1 := StepInv(s, k, nodes, t0);
    NodesEnd(s.heap, nodes, addr, d);
    var more := Search(s1, nodes, t0, k, d);
    go := [k] + more;
    assert go[1..] == more;
  }

  /** Threads i and k are where they were, among more nodes. */
  lemma StillThere(s: State, nodes: Names, s': State, nodes': Names, i: nat, k: nat, w: Walker, addr: Prefix, from: nat)
    requires AtKey(s, nodes, i, w) && Stuck(s, nodes, k, addr, |w.key|, from)
    requires |s'.threads| == |s.threads| && s'.threads[i] == s.threads[i] && s'.threads[k] == s.threads[k]
    requires forall p :: p in nodes ==> p in nodes' && nodes'[p] == nodes[p]
    ensures AtKey(s', nodes', i, w) && Stuck(s', nodes', k, addr, |w.key|, from)
  {
  }

  /** Walk and stores of a registration that nobody disturbs. */
  lemma Register(s: State, nodes: Names, t0: Table, j: nat, v: Walker) returns (go: seq<nat>, nodes': Names)
    requires Inv(s, nodes, t0) && j < |s.threads| && s.threads[j] == Registering(v) && v.pc.Walking?
    ensures var s' := Run(s, go);
            && Inv(s', nodes', t0) && s'.log == s.log + [TaskOf(v)] && OnlyMoved(s, s', j, j)
            && (forall p :: p in nodes ==> p in nodes' && nodes'[p] == nodes[p])
            && (forall p :: p in nodes' ==> p in nodes || p <= v.key)
  {
    var down, n1 := Descend(s, nodes, t0, j);
    nodes' := n1;
    Finish(Run(s, down), nodes', t0, j);
    go := down + [j, j];
    RunAppend(s, down, [j, j]);
  }

  /** Phase two: the longer prefix is registered in full, then the shorter one. */
  lemma StoreBoth(
    s: State, nodes: Names, t0: Table, i: nat, j: nat, k: nat, w: Walker, v: Walker, addr: Prefix, from: nat)
    returns (go: seq<nat>, nodes': Names)
    requires Inv(s, nodes, t0) && i != j && j < |s.threads| && s.threads[j] == Registering(v) && v.pc.Walking?
    requires AtKey(s, nodes, i, w) && Stuck(s, nodes, k, addr, |w.key|, from)
    ensures var s' := Run(s, go);
            && Inv(s', nodes', t0) && s'.log == s.log + [TaskOf(v), TaskOf(w)]
            && Stuck(s', nodes', k, addr, |w.key|, from)
  {
    var first, n1 := Register(s, nodes, t0, j, v);
    nodes' := n1;
    var s1 := Run(s, first);
    StillThere(s, nodes, s1, nodes', i, k, w, addr, from);
    Finish(s1, nodes', t0, i);
    go := first + [i, i];
    RunAppend(s, first, [i, i]);
  }

  /** Phase three: the last check finds the shorter route. */
  lemma AnswerShort(s: State, nodes: Names, t0: Table, k: nat, addr: Prefix, x: Registration, from: nat)
    requires Inv(s, nodes, t0) && s.log != [] && s.log[|s.log| - 1] == x
    requires x.key <= addr && Stuck(s, nodes, k, addr, |x.key|, from)
    ensures var s' := Run(s, [k, k]);
            && s'.log == s.log && k < |s'.threads| && s'.threads[k].LookingUp?
            && var r := s'.threads[k].r;
               && r.stage.Answered? && r.best == Some(x.val) && r.addr == addr
               && r.when.from == from && r.when.at == |s.log|
  {
    assert addr[..|x.key|] == x.key;
    NodeSays(s.heap, nodes, s.log, t0, x.key);
    RunTwo(s, k);
  }

  /** At every moment something else is the longest match: what was there before, then the longer route. */
  lemma NeverShort(t0: Table, pre: Log, x: Registration, y: Registration, addr: Prefix, m: nat)
    requires Clash(x, y, addr) && |pre| <= m <= |pre| + 2
    requires LongestMatch(RegisterAll(t0, pre), addr) != Some(x.val)
    requires NothingBeyond(RegisterAll(t0, pre), addr, |x.key|)
    ensures LongestMatch(TableAt(t0, pre + [y, x], m), addr) != Some(x.val)
  {
    var log := pre + [y, x];
    assert log[..|pre|] == pre && log[..|pre| + 1] == pre + [y] && log[..|pre| + 2] == pre + [y] + [x];
    RegisterSnoc(t0, pre, y);
    RegisterSnoc(t0, pre + [y], x);
    var t := RegisterAll(t0, pre);
    assert m == |pre| || TableAt(t0, log, m) in {t[y.key := y.val], t[y.key := y.val][x.key := x.val]};
    LongerHides(t[y.key := y.val], t, x, y, addr);
    LongerHides(t[y.key := y.val][x.key := x.val], t, x, y, addr);
  }

  lemma LongerHides(t: Table, t0: Table, x: Registration, y: Registration, addr: Prefix)
    requires Clash(x, y, addr) && y.key in t && t[y.key] == y.val && NothingBeyond(t0, addr, |x.key|)
    requires forall p :: p in t ==> p in t0 || p == x.key || p == y.key
    ensures LongestMatch(t, addr) == Some(y.val)
  {
    assert addr[..|y.key|] == y.key;
    forall i | |y.key| < i <= |addr| ensures addr[..i] !in t {
      assert |addr[..i]| == i;
    }
    BestIsLongest(t, addr, |addr|, |y.key|);
  }
}
