/**
  The hub's transmit loop: an event read from the device is routed packet by packet, and either
  handed on whole (one destination) or split into one batch per destination; a destination then
  drains its queue of events into one batch write.
 */
module HubTx {
  import opened Bytes
  import opened Tables
  import opened Router

  type Packet = seq<byte>

  /** A transmit event: fixed-size rows with headroom, a size per row, and how many rows are in use. */
  datatype Event = Event(rows: seq<seq<byte>>, sizes: seq<nat>, n: nat)

  datatype Config = Config(batchSize: nat, headerSize: nat, mtu: nat) {
    /** What the event pool hands out: batchSize rows of mtu + headerSize bytes. */
    ghost predicate Fits(e: Event) {
      && |e.rows| == |e.sizes| == batchSize && e.n <= batchSize
      && (forall i :: 0 <= i < batchSize ==> |e.rows[i]| == headerSize + mtu)
      && (forall i :: 0 <= i < e.n ==> e.sizes[i] <= mtu)
    }

    function Packets(e: Event): (r: seq<Packet>)
      requires Fits(e)
      ensures |r| == e.n
      ensures forall i :: 0 <= i < e.n ==> r[i] == e.rows[i][headerSize..headerSize + e.sizes[i]]
    {
      seq(e.n, i requires 0 <= i < e.n => e.rows[i][headerSize..headerSize + e.sizes[i]])
    }
  }

  datatype Hop = Hop(dst: nat, index: nat)
  datatype Push = Push(dst: nat, event: Event)

  // ----- what should reach a destination

  /** The packets whose target is `dst`, in their order. */
  function RoutedTo(packets: seq<Packet>, targets: seq<Any>, dst: nat): seq<Packet>
    requires |packets| == |targets|
  {
    if packets == [] then []
    else
      var k := |packets| - 1;
      RoutedTo(packets[..k], targets[..k], dst) + if targets[k] == Dst(dst) then [packets[k]] else []
  }

  /** How many of the first n targets are `dst`. */
  function Rank(targets: seq<Any>, dst: nat, n: nat): nat
    requires n <= |targets|
  {
    |set i: nat | i < n && targets[i] == Dst(dst)|
  }

  lemma RankNext(targets: seq<Any>, dst: nat, n: nat)
    requires n < |targets|
    ensures Rank(targets, dst, n + 1) == Rank(targets, dst, n) + if targets[n] == Dst(dst) then 1 else 0
  {
    var now := set i: nat | i < n && targets[i] == Dst(dst);
    assert (set i: nat | i < n + 1 && targets[i] == Dst(dst)) == if targets[n] == Dst(dst) then now + {n} else now;
  }

  lemma RankPrefix(targets: seq<Any>, dst: nat, n: nat, k: nat)
    requires n <= k <= |targets|
    ensures Rank(targets[..k], dst, n) == Rank(targets, dst, n)
  {
    assert (set i: nat | i < n && targets[..k][i] == Dst(dst)) == set i: nat | i < n && targets[i] == Dst(dst);
  }

  /** As many packets as targets name the destination, each at the place its predecessors leave it. */
  lemma {:induction false} RoutedAt(packets: seq<Packet>, targets: seq<Any>, dst: nat, i: nat)
    requires |packets| == |targets|
    ensures var routed := RoutedTo(packets, targets, dst);
            && |routed| == Rank(targets, dst, |targets|)
            && (i < |targets| && targets[i] == Dst(dst) ==>
                  Rank(targets, dst, i) < |routed| && routed[Rank(targets, dst, i)] == packets[i])
  {
    if packets != [] {
      var k := |packets| - 1;
      RoutedAt(packets[..k], targets[..k], dst, i);
      RankPrefix(targets, dst, k, k);
      RankNext(targets, dst, k);
      if i < k { RankPrefix(targets, dst, i, k); }
    }
  }

  /** The packets of all events pushed to a destination, in order. */
  function Delivered(c: Config, pushes: seq<Push>, dst: nat): seq<Packet>
    requires forall i :: 0 <= i < |pushes| ==> c.Fits(pushes[i].event)
  {
    if pushes == [] then []
    else
      var k := |pushes| - 1;
      Delivered(c, pushes[..k], dst) + if pushes[k].dst == dst then c.Packets(pushes[k].event) else []
  }

  /** Some packet has a destination, and all that have one share it: the fast path. */
  ghost predicate SingleDestination(targets: seq<Any>) {
    exists d :: Dst(d) in targets && forall i :: 0 <= i < |targets| ==> targets[i] == Nil || targets[i] == Dst(d)
  }

  // ----- collecting the valid routes

  function Hops(targets: seq<Any>): (r: seq<Hop>)
    ensures |r| <= |targets| && forall j :: 0 <= j < |r| ==> r[j].index < |targets|
  {
    if targets == [] then []
    else
      var k := |targets| - 1;
      Hops(targets[..k]) + if targets[k].Dst? then [Hop(targets[k].id, k)] else []
  }

  lemma {:induction false} HopsAre(targets: seq<Any>, j: nat)
    requires j < |Hops(targets)|
    ensures targets[Hops(targets)[j].index] == Dst(Hops(targets)[j].dst)
  {
    var k := |targets| - 1;
    if j < |Hops(targets[..k])| {
      HopsAre(targets[..k], j);
    }
  }

  lemma {:induction false} HopsFind(targets: seq<Any>, i: nat)
    requires i < |targets| && targets[i].Dst?
    ensures Hop(targets[i].id, i) in Hops(targets)
  {
    if i < |targets| - 1 {
      HopsFind(targets[..|targets| - 1], i);
    }
  }

  /** Packets in hop order, for one destination. */
  function HopPackets(hops: seq<Hop>, packets: seq<Packet>, dst: nat): seq<Packet>
    requires forall j :: 0 <= j < |hops| ==> hops[j].index < |packets|
  {
    if hops == [] then []
    else
      var k := |hops| - 1;
      HopPackets(hops[..k], packets, dst) + if hops[k].dst == dst then [packets[hops[k].index]] else []
  }

  /** The hops of a destination carry exactly the packets routed to it. */
  lemma {:induction false} HopPacketsAreRouted(packets: seq<Packet>, targets: seq<Any>, dst: nat)
    requires |packets| == |targets|
    ensures HopPackets(Hops(targets), packets, dst) == RoutedTo(packets, targets, dst)
  {
    if targets != [] {
      var k := |targets| - 1;
      var hops, init := Hops(targets), Hops(targets[..k]);
      HopPacketsAreRouted(packets[..k], targets[..k], dst);
      HopPacketsPrefix(init, packets, k, dst);
      if targets[k].Dst? {
        assert hops[..|hops| - 1] == init;
      } else {
        assert hops == init;
      }
    }
  }

  lemma {:induction false} HopPacketsPrefix(hops: seq<Hop>, packets: seq<Packet>, k: nat, dst: nat)
    requires k <= |packets| && forall j :: 0 <= j < |hops| ==> hops[j].index < k
    ensures HopPackets(hops, packets, dst) == HopPackets(hops, packets[..k], dst)
  {
    if hops != [] {
      HopPacketsPrefix(hops[..|hops| - 1], packets, k, dst);
    }
  }

  /** A destination that is not the only one gets fewer packets than there are hops. */
  lemma {:induction false} HopPacketsShare(hops: seq<Hop>, packets: seq<Packet>, dst: nat)
    requires forall j :: 0 <= j < |hops| ==> hops[j].index < |packets|
    ensures |HopPackets(hops, packets, dst)| <= |hops|
    ensures (exists j :: 0 <= j < |hops| && hops[j].dst != dst) ==> |HopPackets(hops, packets, dst)| < |hops|
    ensures HopPackets(hops, packets, dst) != [] <==> exists j :: 0 <= j < |hops| && hops[j].dst == dst
  {
    if hops != [] {
      var k := |hops| - 1;
      HopPacketsShare(hops[..k], packets, dst);
      if hops[k].dst == dst {
        assert forall j :: 0 <= j < k ==> hops[..k][j] == hops[j];
      } else {
        assert forall j :: 0 <= j < k ==> hops[..k][j] == hops[j];
      }
    }
  }

  lemma {:induction false} HopsPrefix(targets: seq<Any>, i: nat)
    requires i <= |targets|
    ensures |Hops(targets[..i])| <= |Hops(targets)| && Hops(targets)[..|Hops(targets[..i])|] == Hops(targets[..i])
  {
    if i < |targets| {
      var k := |targets| - 1;
      HopsPrefix(targets[..k], i);
      assert targets[..k][..i] == targets[..i];
    } else {
      assert targets[..i] == targets;
    }
  }

  function TargetsOf(t: Routes, packets: seq<Packet>): (r: seq<Any>)
    ensures |r| == |packets| && forall i :: 0 <= i < |r| ==> r[i] == TargetOf(t, packets[i])
  {
    seq(|packets|, i requires 0 <= i < |packets| => TargetOf(t, packets[i]))
  }

  /** RouteBatch's count is no smaller than the number of usable targets. */
  lemma {:induction false} CountCoversHops(t: Routes, packets: seq<Packet>, i: nat)
    requires i <= |packets|
    ensures |Hops(TargetsOf(t, packets)[..i])| + Matched(t, packets[i..]) <= Matched(t, packets)
  {
    var ts := TargetsOf(t, packets);
    if i == 0 {
      assert packets[0..] == packets;
    } else {
      CountCoversHops(t, packets, i - 1);
      assert ts[..i][..i - 1] == ts[..i - 1];
      assert packets[i - 1..][1..] == packets[i..];
    }
  }

  // ----- the loop body

  /** Stops as soon as the count of valid routes is reached. */
  method CollectHops(targets: array<Any>, n: nat, valid: nat, ghost ts: seq<Any>) returns (hops: seq<Hop>)
    requires n <= targets.Length && targets[..n] == ts && |Hops(ts)| <= valid
    ensures hops == Hops(ts)
  {
    hops := [];
    var i := 0;
    while i < n && |hops| < valid
      invariant 0 <= i <= n && hops == Hops(ts[..i])
    {
      assert ts[..i + 1][..i] == ts[..i] && targets[i] == ts[i];
      if targets[i] != Nil {
        hops := hops + [Hop(targets[i].id, i)];
      }
      i := i + 1;
    }
    HopsPrefix(ts, i);
    assert ts[..n] == ts;
  }

  method AllSame(hops: seq<Hop>) returns (same: bool)
    requires hops != []
    ensures same <==> forall j :: 0 <= j < |hops| ==> hops[j].dst == hops[0].dst
  {
    for i := 1 to |hops|
      invariant forall j :: 0 <= j < i ==> hops[j].dst == hops[0].dst
    {
      if hops[i].dst != hops[0].dst { return false; }
    }
    same := true;
  }

  function CopyRow(dst: seq<byte>, src: seq<byte>): seq<byte> {
    if |src| <= |dst| then src + dst[|src|..] else src[..|dst|]
  }

  /** Appends one row of the source event to a batch. */
  method Append(c: Config, batch: Event, e: Event, index: nat) returns (r: Event)
    requires c.Fits(batch) && c.Fits(e) && index < e.n && batch.n < c.batchSize
    ensures c.Fits(r) && c.Packets(r) == c.Packets(batch) + [c.Packets(e)[index]]
  {
    var at := batch.n;
    var row := CopyRow(batch.rows[at], e.rows[index]);
    assert row == e.rows[index];
    r := Event(batch.rows[at := row], batch.sizes[at := e.sizes[index]], at + 1);
    forall i | 0 <= i < at + 1 ensures c.Packets(r)[i] == (c.Packets(batch) + [c.Packets(e)[index]])[i] {}
  }

  /** Every destination met so far has its batch, holding its packets in order. */
  ghost predicate Batched(c: Config, batches: map<nat, Event>, hops: seq<Hop>, packets: seq<Packet>)
    requires forall j :: 0 <= j < |hops| ==> hops[j].index < |packets|
  {
    forall d :: (d in batches <==> HopPackets(hops, packets, d) != [])
             && (d in batches ==> c.Fits(batches[d]) && c.Packets(batches[d]) == HopPackets(hops, packets, d))
  }

  /** No hop at all, or hops to different destinations. */
  ghost predicate Mixed(hops: seq<Hop>) {
    hops == [] || exists j :: 0 <= j < |hops| && hops[j].dst != hops[0].dst
  }

  /** The aggregating path. With two destinations or more no batch can fill up. */
  method Aggregate(c: Config, e: Event, hops: seq<Hop>, blank: Event) returns (batches: map<nat, Event>)
    requires c.Fits(e) && c.Fits(blank) && blank.n == 0 && |hops| <= e.n
    requires forall j :: 0 <= j < |hops| ==> hops[j].index < e.n
    requires Mixed(hops)
    ensures Batched(c, batches, hops, c.Packets(e))
  {
    ghost var packets := c.Packets(e);
    batches := map[];
    for i := 0 to |hops|
      invariant Batched(c, batches, hops[..i], packets)
    {
      assert hops[..i + 1] == hops[..i] + [hops[i]];
      NeverFull(hops, packets, i);
      batches := AppendHop(c, e, batches, hops[i], blank, hops[..i]);
    }
    assert hops[..|hops|] == hops;
  }

  /** Puts one packet into the batch of its destination, which starts out as a blank event. */
  method AppendHop(c: Config, e: Event, batches: map<nat, Event>, hop: Hop, blank: Event, ghost before: seq<Hop>)
    returns (r: map<nat, Event>)
    requires c.Fits(e) && c.Fits(blank) && blank.n == 0 && hop.index < e.n
    requires forall j :: 0 <= j < |before| ==> before[j].index < e.n
    requires Batched(c, batches, before, c.Packets(e))
    requires |HopPackets(before, c.Packets(e), hop.dst)| + 1 < e.n
    ensures Batched(c, r, before + [hop], c.Packets(e))
  {
    var batch := if hop.dst in batches then batches[hop.dst] else blank;
    assert c.Packets(batch) == HopPackets(before, c.Packets(e), hop.dst);
    // so the code's push of a full batch is never reached
    assert batch.n + 1 < c.batchSize;
    var next := Append(c, batch, e, hop.index);
    BatchStep(c, batches, before, hop, c.Packets(e), next);
    r := batches[hop.dst := next];
  }

  lemma NeverFull(hops: seq<Hop>, packets: seq<Packet>, i: nat)
    requires i < |hops| <= |packets| && forall j :: 0 <= j < |hops| ==> hops[j].index < |packets|
    requires Mixed(hops)
    ensures |HopPackets(hops[..i], packets, hops[i].dst)| + 1 < |packets|
  {
    var d := hops[i].dst;
    assert exists j :: 0 <= j < |hops| && hops[j].dst != d by {
      if hops[0].dst == d {
        var j :| 0 <= j < |hops| && hops[j].dst != hops[0].dst;
        assert hops[j].dst != d;
      }
    }
    HopPacketsShare(hops, packets, d);
    HopPacketsGrow(hops, packets, i + 1, d);
    assert hops[..i + 1][..i] == hops[..i];
  }

  lemma {:induction false} HopPacketsGrow(hops: seq<Hop>, packets: seq<Packet>, i: nat, dst: nat)
    requires i <= |hops| && forall j :: 0 <= j < |hops| ==> hops[j].index < |packets|
    ensures |HopPackets(hops[..i], packets, dst)| <= |HopPackets(hops, packets, dst)|
  {
    if i < |hops| {
      assert hops[..|hops| - 1][..i] == hops[..i];
      HopPacketsGrow(hops[..|hops| - 1], packets, i, dst);
    } else {
      assert hops[..i] == hops;
    }
  }

  lemma BatchStep(c: Config, batches: map<nat, Event>, hops: seq<Hop>, hop: Hop, packets: seq<Packet>, next: Event)
    requires forall j :: 0 <= j < |hops| ==> hops[j].index < |packets|
    requires hop.index < |packets| && Batched(c, batches, hops, packets) && c.Fits(next)
    requires c.Packets(next) == HopPackets(hops, packets, hop.dst) + [packets[hop.index]]
    ensures Batched(c, batches[hop.dst := next], hops + [hop], packets)
  {
    var batches', hops' := batches[hop.dst := next], hops + [hop];
    forall d
      ensures d in batches' <==> HopPackets(hops', packets, d) != []
      ensures d in batches' ==> c.Fits(batches'[d]) && c.Packets(batches'[d]) == HopPackets(hops', packets, d)
    {
      HopPacketsSnoc(hops, hop, packets, d);
      assert d in batches <==> HopPackets(hops, packets, d) != [];
    }
  }

  lemma HopPacketsSnoc(hops: seq<Hop>, hop: Hop, packets: seq<Packet>, dst: nat)
    requires hop.index < |packets| && forall j :: 0 <= j < |hops| ==> hops[j].index < |packets|
    ensures HopPackets(hops + [hop], packets, dst)
         == if hop.dst == dst then HopPackets(hops, packets, dst) + [packets[hop.index]]
            else HopPackets(hops, packets, dst)
  {
    assert (hops + [hop])[..|hops|] == hops;
  }

  ghost predicate AllFit(c: Config, pushes: seq<Push>) {
    forall i :: 0 <= i < |pushes| ==> c.Fits(pushes[i].event)
  }

  /** No event is empty, and no destination is handed two of them. */
  ghost predicate OncePerDestination(pushes: seq<Push>) {
    && (forall i :: 0 <= i < |pushes| ==> pushes[i].event.n > 0)
    && (forall i, j :: 0 <= i < j < |pushes| ==> pushes[i].dst != pushes[j].dst)
  }

  /** Every destination outside `todo` has been given its packets, and no other has been given any. */
  ghost predicate Pushed(c: Config, pushes: seq<Push>, todo: set<nat>, hops: seq<Hop>, packets: seq<Packet>)
    requires forall j :: 0 <= j < |hops| ==> hops[j].index < |packets|
  {
    AllFit(c, pushes) && forall d :: PushedAt(c, pushes, todo, hops, packets, d)
  }

  ghost predicate PushedAt(
    c: Config, pushes: seq<Push>, todo: set<nat>, hops: seq<Hop>, packets: seq<Packet>, d: nat)
    requires AllFit(c, pushes) && forall j :: 0 <= j < |hops| ==> hops[j].index < |packets|
  {
    Delivered(c, pushes, d) == if d in todo then [] else HopPackets(hops, packets, d)
  }

  lemma PushStep(c: Config, pushes: seq<Push>, todo: set<nat>, hops: seq<Hop>, packets: seq<Packet>, push: Push)
    requires forall j :: 0 <= j < |hops| ==> hops[j].index < |packets|
    requires Pushed(c, pushes, todo, hops, packets) && push.dst in todo
    requires c.Fits(push.event) && c.Packets(push.event) == HopPackets(hops, packets, push.dst)
    ensures Pushed(c, pushes + [push], todo - {push.dst}, hops, packets)
  {
    forall d ensures PushedAt(c, pushes + [push], todo - {push.dst}, hops, packets, d) {
      assert PushedAt(c, pushes, todo, hops, packets, d);
      PushAt(c, pushes, todo, hops, packets, push, d);
    }
  }

  lemma PushAt(c: Config, pushes: seq<Push>, todo: set<nat>, hops: seq<Hop>, packets: seq<Packet>, push: Push, d: nat)
    requires forall j :: 0 <= j < |hops| ==> hops[j].index < |packets|
    requires AllFit(c, pushes) && push.dst in todo && PushedAt(c, pushes, todo, hops, packets, d)
    requires c.Fits(push.event) && c.Packets(push.event) == HopPackets(hops, packets, push.dst)
    ensures PushedAt(c, pushes + [push], todo - {push.dst}, hops, packets, d)
  {
    DeliveredSnoc(c, pushes, push, d);
    if d == push.dst {
      assert d in todo && Delivered(c, pushes, d) == [];
      assert [] + c.Packets(push.event) == c.Packets(push.event);
    }
  }

  /** Pushes the remaining batches, in whatever order the map yields them. */
  method PushAll(c: Config, batches: map<nat, Event>, ghost hops: seq<Hop>, ghost packets: seq<Packet>)
    returns (pushes: seq<Push>)
    requires forall j :: 0 <= j < |hops| ==> hops[j].index < |packets|
    requires Batched(c, batches, hops, packets)
    ensures AllFit(c, pushes) && forall d :: Delivered(c, pushes, d) == HopPackets(hops, packets, d)
    ensures OncePerDestination(pushes)
  {
    pushes := [];
    var todo := batches.Keys;
    while todo != {}
      invariant todo <= batches.Keys && Pushed(c, pushes, todo, hops, packets)
      invariant OncePerDestination(pushes) && forall i :: 0 <= i < |pushes| ==> pushes[i].dst !in todo
    {
      var d :| d in todo;
      PushStep(c, pushes, todo, hops, packets, Push(d, batches[d]));
      pushes := pushes + [Push(d, batches[d])];
      todo := todo - {d};
    }
    forall d ensures Delivered(c, pushes, d) == HopPackets(hops, packets, d) {
      assert PushedAt(c, pushes, todo, hops, packets, d);
    }
  }

  lemma DeliveredSnoc(c: Config, pushes: seq<Push>, push: Push, dst: nat)
    requires AllFit(c, pushes) && c.Fits(push.event)
    ensures Delivered(c, pushes + [push], dst)
         == if push.dst == dst then Delivered(c, pushes, dst) + c.Packets(push.event) else Delivered(c, pushes, dst)
  {
    assert (pushes + [push])[..|pushes|] == pushes;
  }

  ghost predicate Faithful(c: Config, pushes: seq<Push>, packets: seq<Packet>, targets: seq<Any>)
    requires AllFit(c, pushes) && |packets| == |targets|
  {
    forall d {:trigger RoutedTo(packets, targets, d)} :: Delivered(c, pushes, d) == RoutedTo(packets, targets, d)
  }

  /** With every target set to one destination, that destination is owed everything and nobody else anything. */
  lemma {:induction false} RoutedToOnly(packets: seq<Packet>, targets: seq<Any>, d0: nat, d: nat)
    requires |packets| == |targets| && forall i :: 0 <= i < |targets| ==> targets[i] == Dst(d0)
    ensures RoutedTo(packets, targets, d) == if d == d0 then packets else []
  {
    if packets != [] {
      var k := |packets| - 1;
      RoutedToOnly(packets[..k], targets[..k], d0, d);
      assert packets[..k] + [packets[k]] == packets;
    }
  }

  lemma {:induction false} RoutedToFewer(packets: seq<Packet>, targets: seq<Any>, d: nat)
    requires |packets| == |targets|
    ensures |RoutedTo(packets, targets, d)| <= |packets|
    ensures Nil in targets ==> |RoutedTo(packets, targets, d)| < |packets|
  {
    if packets != [] {
      var k := |packets| - 1;
      RoutedToFewer(packets[..k], targets[..k], d);
      assert targets == targets[..k] + [targets[k]];
    }
  }

  /** Pushing the whole event to one destination is right exactly when every packet has a route. */
  lemma FastPathFaithful(c: Config, e: Event, targets: seq<Any>, d0: nat)
    requires c.Fits(e) && |targets| == e.n
    requires forall i :: 0 <= i < |targets| ==> targets[i] == Nil || targets[i] == Dst(d0)
    ensures Faithful(c, [Push(d0, e)], c.Packets(e), targets) <==> Nil !in targets
  {
    var packets, pushes := c.Packets(e), [Push(d0, e)];
    assert pushes[..0] == [];
    assert forall d :: Delivered(c, pushes, d) == if d == d0 then packets else [];
    if Nil in targets {
      RoutedToFewer(packets, targets, d0);
    } else {
      forall d ensures Delivered(c, pushes, d) == RoutedTo(packets, targets, d) {
        RoutedToOnly(packets, targets, d0, d);
      }
    }
  }

  lemma SingleIffSame(targets: seq<Any>)
    ensures SingleDestination(targets) <==> Hops(targets) != [] && !Mixed(Hops(targets))
  {
    var hops := Hops(targets);
    if SingleDestination(targets) {
      var d :| Dst(d) in targets && forall i :: 0 <= i < |targets| ==> targets[i] == Nil || targets[i] == Dst(d);
      var i :| 0 <= i < |targets| && targets[i] == Dst(d);
      HopsFind(targets, i);
      forall j | 0 <= j < |hops| ensures hops[j].dst == d { HopsAre(targets, j); }
    }
    if hops != [] && !Mixed(hops) {
      var d := hops[0].dst;
      HopsAre(targets, 0);
      forall i | 0 <= i < |targets| ensures targets[i] == Nil || targets[i] == Dst(d) {
        if targets[i].Dst? {
          HopsFind(targets, i);
          var j :| 0 <= j < |hops| && hops[j] == Hop(targets[i].id, i);
        }
      }
    }
  }

  /**
    One round of the transmit loop. Every destination gets exactly its packets, in order, except
    when all routed packets share one destination and some packet has no route: the fast path then
    hands the event on as it is, to that destination alone. No event is empty, so a destination's
    queue is one that Drain accepts.
   */
  method TxRound(c: Config, e: Event, r: Router, targets: array<Any>, blank: Event) returns (pushes: seq<Push>)
    requires c.Fits(e) && c.Fits(blank) && blank.n == 0
    requires r.Valid() && targets.Length == c.batchSize && targets !in r.Repr
    modifies targets
    ensures AllFit(c, pushes)
    ensures var packets := c.Packets(e); var ts := TargetsOf(r.routes, packets);
            && (Faithful(c, pushes, packets, ts) <==> !(SingleDestination(ts) && Nil in ts))
            && (SingleDestination(ts) ==> exists d :: Dst(d) in ts && pushes == [Push(d, e)])
    ensures OncePerDestination(pushes)
  {
    var packets := c.Packets(e);
    ghost var ts := TargetsOf(r.routes, packets);
    var valid := r.RouteBatch(packets, targets);
    assert targets[..e.n] == ts;
    CountCoversHops(r.routes, packets, e.n);
    assert ts[..e.n] == ts;
    var hops := CollectHops(targets, e.n, valid, ts);
    SingleIffSame(ts);
    if hops != [] { HopsAre(ts, 0); }
    pushes := Dispatch(c, e, hops, blank, ts);
  }

  /** Fast path or aggregation. */
  method Dispatch(c: Config, e: Event, hops: seq<Hop>, blank: Event, ghost ts: seq<Any>) returns (pushes: seq<Push>)
    requires c.Fits(e) && c.Fits(blank) && blank.n == 0 && |ts| == e.n && hops == Hops(ts)
    ensures AllFit(c, pushes)
    ensures Faithful(c, pushes, c.Packets(e), ts) <==> hops == [] || Mixed(hops) || Nil !in ts
    ensures hops != [] && !Mixed(hops) ==> pushes == [Push(hops[0].dst, e)]
    ensures OncePerDestination(pushes)
  {
    ghost var packets := c.Packets(e);
    if hops != [] {
      var same := AllSame(hops);
      if same {
        forall i | 0 <= i < |ts| ensures ts[i] == Nil || ts[i] == Dst(hops[0].dst) {
          if ts[i].Dst? { HopsFind(ts, i); }
        }
        FastPathFaithful(c, e, ts, hops[0].dst);
        return [Push(hops[0].dst, e)];
      }
    }
    var batches := Aggregate(c, e, hops, blank);
    pushes := PushAll(c, batches, hops, packets);
    forall d ensures Delivered(c, pushes, d) == RoutedTo(packets, ts, d) {
      HopPacketsAreRouted(packets, ts, d);
    }
  }

  // ----- draining a destination's queue

  function AllPackets(c: Config, events: seq<Event>): seq<Packet>
    requires forall i :: 0 <= i < |events| ==> c.Fits(events[i])
  {
    if events == [] then []
    else AllPackets(c, events[..|events| - 1]) + c.Packets(events[|events| - 1])
  }

  /** The same as a concatenation. */
  lemma {:induction false} AllPacketsIs(c: Config, events: seq<Event>, parts: seq<seq<Packet>>)
    requires |parts| == |events|
    requires forall i :: 0 <= i < |events| ==> c.Fits(events[i]) && parts[i] == c.Packets(events[i])
    ensures AllPackets(c, events) == Concat(parts)
  {
    if events != [] {
      var k := |events| - 1;
      AllPacketsIs(c, events[..k], parts[..k]);
      ConcatTake(parts, k);
      assert parts[..k + 1] == parts;
    }
  }

  function Clip(packets: seq<Packet>, room: nat): seq<Packet> {
    if |packets| <= room then packets else packets[..room]
  }

  lemma ClipAppend(all: seq<Packet>, more: seq<Packet>, room: nat)
    requires |all| <= room
    ensures all + Clip(more, room - |all|) == Clip(all + more, room)
  {
  }

  /** Packs the packets of one event, as far as there is room. */
  method Pack(c: Config, out: seq<Packet>, e: Event, room: nat) returns (r: seq<Packet>)
    requires c.Fits(e)
    ensures r == out + Clip(c.Packets(e), room)
  {
    r := out;
    ghost var packets := c.Packets(e);
    var j := 0;
    while j < e.n && j < room
      invariant 0 <= j <= e.n && j <= room && r == out + packets[..j]
    {
      assert packets[..j + 1] == packets[..j] + [packets[j]];
      r := r + [e.rows[j][c.headerSize..c.headerSize + e.sizes[j]]];
      j := j + 1;
    }
  }

  /** Queued events whose rows fit and are in use. */
  ghost predicate Queue(c: Config, queue: seq<Event>) {
    forall i :: 0 <= i < |queue| ==> c.Fits(queue[i]) && queue[i].n > 0
  }

  lemma OneEvent(c: Config, queue: seq<Event>, i: nat)
    requires Queue(c, queue) && i < |queue|
    ensures AllPackets(c, queue[..i + 1]) == AllPackets(c, queue[..i]) + c.Packets(queue[i])
  {
    assert queue[..i + 1][..i] == queue[..i];
  }

  /** More events, strictly more packets. */
  lemma {:induction false} MoreEvents(c: Config, queue: seq<Event>, j: nat, k: nat)
    requires Queue(c, queue) && j < k <= |queue|
    ensures |AllPackets(c, queue[..j])| < |AllPackets(c, queue[..k])|
  {
    assert queue[..k][..k - 1] == queue[..k - 1];
    if j < k - 1 { MoreEvents(c, queue, j, k - 1); }
  }

  lemma {:induction false} EventsPrefix(c: Config, queue: seq<Event>, k: nat)
    requires Queue(c, queue) && k <= |queue|
    ensures AllPackets(c, queue[..k]) <= AllPackets(c, queue)
  {
    var n := |queue|;
    if k < n {
      assert queue[..n - 1][..k] == queue[..k];
      EventsPrefix(c, queue[..n - 1], k);
    } else {
      assert queue[..k] == queue;
    }
  }

  /** Some number of whole events fills a batch write exactly, or all of them fit. */
  ghost predicate Divides(c: Config, queue: seq<Event>, maxBuf: nat)
    requires Queue(c, queue)
  {
    |AllPackets(c, queue)| <= maxBuf || exists k :: 0 <= k <= |queue| && |AllPackets(c, queue[..k])| == maxBuf
  }

  /** Events are taken while there is room; the last of them fits exactly when the queue divides. */
  lemma {:induction false} FitsIffDivides(c: Config, queue: seq<Event>, maxBuf: nat, taken: nat)
    requires Queue(c, queue) && 0 < taken <= |queue|
    requires taken < |queue| ==> |AllPackets(c, queue[..taken])| >= maxBuf
    requires |AllPackets(c, queue[..taken - 1])| < maxBuf
    ensures |AllPackets(c, queue[..taken])| <= maxBuf <==> Divides(c, queue, maxBuf)
  {
    assert queue[..|queue|] == queue;
    if |AllPackets(c, queue[..taken])| > maxBuf {
      forall k | 0 <= k <= |queue| ensures |AllPackets(c, queue[..k])| != maxBuf {
        if k > taken { MoreEvents(c, queue, taken, k); }
        if k < taken - 1 { MoreEvents(c, queue, k, taken - 1); }
      }
      if taken < |queue| { MoreEvents(c, queue, taken, |queue|); }
    }
  }

  /** What txLoopN collects, or the index error of a first event longer than its arrays. */
  datatype Drained = Drained(out: seq<Packet>, taken: nat) | IndexOutOfRange

  /**
    txLoopN's collection of one batch write: whole events while there is room. A first event with
    more packets than a batch write holds is an index error. A later event taken when there is room
    for only part of it is cut, and the rest of it is lost: nothing is lost exactly when the queue
    divides into whole events at the size of a batch write.
   */
  method Drain(c: Config, queue: seq<Event>, maxBuf: nat) returns (r: Drained)
    requires queue != [] && Queue(c, queue)
    ensures r.IndexOutOfRange? <==> queue[0].n > maxBuf
    ensures r.Drained? ==>
              && 0 < r.taken <= |queue| && r.taken <= maxBuf
              && r.out == Clip(AllPackets(c, queue[..r.taken]), maxBuf)
              && (r.taken < |queue| ==> |r.out| == maxBuf)
              && r.out <= AllPackets(c, queue)
              && |r.out| == (if |AllPackets(c, queue)| < maxBuf then |AllPackets(c, queue)| else maxBuf)
              && (r.out == AllPackets(c, queue[..r.taken]) <==> Divides(c, queue, maxBuf))
  {
    if queue[0].n > maxBuf { return IndexOutOfRange; }
    var out, taken := Collect(c, queue, maxBuf);
    FitsIffDivides(c, queue, maxBuf, taken);
    EventsPrefix(c, queue, taken);
    assert queue[..|queue|] == queue;
    r := Drained(out, taken);
  }

  /** The two loops of the collection. */
  method Collect(c: Config, queue: seq<Event>, maxBuf: nat) returns (out: seq<Packet>, taken: nat)
    requires queue != [] && Queue(c, queue) && queue[0].n <= maxBuf
    ensures 0 < taken <= |queue| && taken <= maxBuf
    ensures out == Clip(AllPackets(c, queue[..taken]), maxBuf)
    ensures taken < |queue| ==> |out| == maxBuf
    ensures |AllPackets(c, queue[..taken - 1])| < maxBuf
  {
    out := Pack(c, [], queue[0], maxBuf);
    taken := 1;
    ghost var all := c.Packets(queue[0]);
    OneEvent(c, queue, 0);
    assert queue[..0] == [] && [] + all == all;
    while |out| < maxBuf && taken < |queue|
      invariant 0 < taken <= |queue| && taken <= |out|
      invariant all == AllPackets(c, queue[..taken])
      invariant out == Clip(all, maxBuf)
      invariant |AllPackets(c, queue[..taken - 1])| < maxBuf
    {
      OneEvent(c, queue, taken);
      ClipAppend(all, c.Packets(queue[taken]), maxBuf);
      out := Pack(c, out, queue[taken], maxBuf - |out|);
      all := all + c.Packets(queue[taken]);
      taken := taken + 1;
    }
  }

  /** For example, of two events of two packets each a batch write of three loses the last packet. */
  lemma LosesPacket()
    ensures var c, e := Config(2, 0, 1), Event([[7], [8]], [1, 1], 2);
            Queue(c, [e, e]) && !Divides(c, [e, e], 3)
  {
    var c, e := Config(2, 0, 1), Event([[7], [8]], [1, 1], 2);
    var queue := [e, e];
    assert c.Fits(e) && Queue(c, queue) && |c.Packets(e)| == 2;
    assert queue[..0] == [] && queue[..1] == [e] && queue[..2] == queue && [e][..0] == [];
    assert |AllPackets(c, [e])| == 2;
    assert |AllPackets(c, queue)| == |AllPackets(c, queue[..1])| + |c.Packets(e)|;
    forall k | 0 <= k <= 2 ensures |AllPackets(c, queue[..k])| != 3 {
      assert k == 0 || k == 1 || k == 2;
    }
  }
}
