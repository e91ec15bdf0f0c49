/** The router: one trie per address family, addressed by packets, by text and by enumeration. */
module Router {
  import opened Bytes
  import opened Prefixes
  import opened Tables
  import opened Cidr
  import opened RouteHash
  import T = Trie

  /** The tables of both families. */
  datatype Routes = Routes(v4: Table, v6: Table) {
    function For(f: Family): Table { if f.V4? then v4 else v6 }
    function With(f: Family, m: Table): Routes { if f.V4? then this.(v4 := m) else this.(v6 := m) }

    /** The bytes fed to MD5: the IPv4 prefixes, then the IPv6 ones. */
    function HashText(): string { HashInput(v4) + HashInput(v6) }

    function LookUp(f: Family, ip: seq<byte>): Option<Any> {
      if |ip| == f.Width() then LongestMatch(For(f), Bits(ip)) else None
    }
  }

  /** One route in each family: the text of the IPv4 prefix, then that of the IPv6 one. */
  lemma HashTextOfTwo(p: Prefix, x: Any, q: Prefix, y: Any)
    requires |p| < 128 && |q| < 128
    ensures Routes(map[p := x], map[q := y]).HashText() == Text(p) + Text(q)
  {
    OneKey(p, x);
    OneKey(q, y);
    OneText(p);
    OneText(q);
  }

  lemma OneKey(p: Prefix, x: Any)
    requires |p| < 128
    ensures Tables.Keys(map[p := x]) == [p]
  {
    KeysComplete(map[p := x]);
    SortedUnique(Tables.Keys(map[p := x]), [p]);
  }

  /**
    The destination address of a packet: section 3.1 of RFC 791 puts it at offset 16,
    section 3 of RFC 8200 at offset 24.
   */
  function DestinationOf(buf: seq<byte>): (r: Option<(Family, seq<byte>)>)
    ensures r.Some? ==> |r.value.1| == r.value.0.Width()
  {
    if |buf| < 20 then None
    else
      var version := buf[0] / 16;
      if version == 4 then
        var ihl := buf[0] % 16;
        if ihl < 5 || ihl * 4 > |buf| then None else Some((V4, buf[16..20]))
      else if version == 6 then
        if |buf| < 40 then None else Some((V6, buf[24..40]))
      else None
  }

  /** An IPv4 packet: 16 bytes of header, destination, options, payload. The first byte is 4 and the header length. */
  predicate Ipv4Packet(buf: seq<byte>, head: seq<byte>, dst: seq<byte>, options: seq<byte>, payload: seq<byte>) {
    && |head| == 16 && |dst| == 4 && |options| % 4 == 0 && head[0] as int == 0x45 + |options| / 4 <= 0x4F
    && buf == head + dst + options + payload
  }

  /** An IPv6 packet: 24 bytes of header, destination, the rest. */
  predicate Ipv6Packet(buf: seq<byte>, head: seq<byte>, dst: seq<byte>, payload: seq<byte>) {
    |head| == 24 && |dst| == 16 && head[0] / 16 == 6 && buf == head + dst + payload
  }

  ghost predicate Addressed(buf: seq<byte>, f: Family, dst: seq<byte>) {
    if f.V4? then exists head, options, payload :: Ipv4Packet(buf, head, dst, options, payload)
    else exists head, payload :: Ipv6Packet(buf, head, dst, payload)
  }

  lemma Ipv4Iff(buf: seq<byte>, dst: seq<byte>)
    ensures DestinationOf(buf) == Some((V4, dst)) <==> Addressed(buf, V4, dst)
  {
    if DestinationOf(buf) == Some((V4, dst)) {
      var n := buf[0] % 16 * 4;
      assert buf == buf[..16] + buf[16..20] + buf[20..n] + buf[n..];
      assert Ipv4Packet(buf, buf[..16], dst, buf[20..n], buf[n..]);
    }
    if head, options, payload :| Ipv4Packet(buf, head, dst, options, payload) {
      assert buf[0] == head[0] && buf[16..20] == dst;
    }
  }

  lemma Ipv6Iff(buf: seq<byte>, dst: seq<byte>)
    ensures DestinationOf(buf) == Some((V6, dst)) <==> Addressed(buf, V6, dst)
  {
    if DestinationOf(buf) == Some((V6, dst)) {
      assert buf == buf[..24] + buf[24..40] + buf[40..];
      assert Ipv6Packet(buf, buf[..24], dst, buf[40..]);
    }
    if head, payload :| Ipv6Packet(buf, head, dst, payload) {
      assert buf[0] == head[0] && buf[24..40] == dst;
    }
  }

  /** A byte string has a destination exactly if it is a packet of one of the two forms. */
  lemma DestinationIff(buf: seq<byte>, f: Family, dst: seq<byte>)
    ensures DestinationOf(buf) == Some((f, dst)) <==> Addressed(buf, f, dst)
  {
    if f.V4? { Ipv4Iff(buf, dst); } else { Ipv6Iff(buf, dst); }
  }

  function RouteOf(t: Routes, buf: seq<byte>): Option<Any> {
    var d := DestinationOf(buf);
    if d.None? then None else t.LookUp(d.value.0, d.value.1)
  }

  /** Section 5.1 of RFC 4632 for an address of either family: the target at the longest of its prefixes. */
  lemma LookUpIs(t: Routes, f: Family, ip: seq<byte>, j: nat)
    requires |ip| == f.Width() && j <= 8 * |ip|
    requires var m := if f.V4? then t.v4 else t.v6;
             Bits(ip)[..j] in m && forall i :: j < i <= 8 * |ip| ==> Bits(ip)[..i] !in m
    ensures t.LookUp(f, ip) == Some((if f.V4? then t.v4 else t.v6)[Bits(ip)[..j]])
  {
    BestIsLongest(if f.V4? then t.v4 else t.v6, Bits(ip), 8 * |ip|, j);
  }

  /** An address finds nothing exactly if it has another width, or none of its prefixes is in its family's table. */
  lemma LookUpNone(t: Routes, f: Family, ip: seq<byte>)
    ensures t.LookUp(f, ip).None? <==>
              (|ip| == if f.V4? then 4 else 16) ==>
                forall j :: 0 <= j <= |Bits(ip)| ==> Bits(ip)[..j] !in if f.V4? then t.v4 else t.v6
  {
  }

  /** A packet is routed to the target at the longest prefix of its destination in the table of its family. */
  lemma RouteIs(t: Routes, buf: seq<byte>, f: Family, dst: seq<byte>, j: nat)
    requires Addressed(buf, f, dst) && j <= |Bits(dst)|
    requires var m := if f.V4? then t.v4 else t.v6;
             Bits(dst)[..j] in m && forall i :: j < i <= |Bits(dst)| ==> Bits(dst)[..i] !in m
    ensures RouteOf(t, buf) == Some((if f.V4? then t.v4 else t.v6)[Bits(dst)[..j]])
  {
    DestinationIff(buf, f, dst);
    LookUpIs(t, f, dst, j);
  }

  /** Some prefix of the packet's destination is in the table of its family. */
  ghost predicate Reachable(t: Routes, buf: seq<byte>) {
    || (exists dst, j :: Addressed(buf, V4, dst) && 0 <= j <= |Bits(dst)| && Bits(dst)[..j] in t.v4)
    || (exists dst, j :: Addressed(buf, V6, dst) && 0 <= j <= |Bits(dst)| && Bits(dst)[..j] in t.v6)
  }

  /** A packet has a route exactly if it has a destination and a prefix of that is in the table of its family. */
  lemma RoutedIff(t: Routes, buf: seq<byte>)
    ensures RouteOf(t, buf).Some? <==> Reachable(t, buf)
  {
    forall f, dst ensures Addressed(buf, f, dst) <==> DestinationOf(buf) == Some((f, dst)) {
      DestinationIff(buf, f, dst);
    }
    var d := DestinationOf(buf);
    if d.Some? {
      LookUpNone(t, d.value.0, d.value.1);
    }
  }

  /** The route of an address given as text; a mapped IPv6 address counts as IPv4. */
  function RouteOfText(t: Routes, addr: string): Option<Any> {
    match ParseAddress(addr)
    case None => None
    case Some(a) => t.LookUp(To4(a).0, To4(a).1)
  }

  /** The text of an address is routed as the address: IPv4 as it is or mapped, IPv6 unless it is in ::ffff:0:0/96. */
  lemma TextRouted(t: Routes, f: Family, ip: seq<byte>)
    requires |ip| == f.Width()
    ensures f.V4? ==> RouteOfText(t, AddressText(V4, ip)) == t.LookUp(V4, ip) == RouteOfText(t, MappedText(ip))
    ensures f.V6? ==>
              RouteOfText(t, AddressText(V6, ip))
              == if ip[..12] == MAPPED then t.LookUp(V4, ip[12..]) else t.LookUp(V6, ip)
  {
    AddressRoundTrip(f, ip);
    if f.V4? {
      MappedRoundTrip(ip);
    } else {
      assert Mapped(ip) <==> ip[..12] == MAPPED by {
        if ip[..12] == MAPPED { assert forall i :: 0 <= i < 12 ==> ip[i] == MAPPED[i]; }
      }
    }
  }

  /** ::ffff:0:0/96 */
  const MAPPED: seq<byte> := [0, 0, 0, 0, 0, 0, 0, 0, 0, 0, 0xFF, 0xFF]

  /** RouteBatch stores nil both for a miss and for a route whose target is nil. */
  function TargetOf(t: Routes, buf: seq<byte>): Any {
    var r := RouteOf(t, buf);
    if r.None? then Nil else r.value
  }

  function Matched(t: Routes, packets: seq<seq<byte>>): nat {
    if packets == [] then 0
    else (if RouteOf(t, packets[0]).Some? then 1 else 0) + Matched(t, packets[1..])
  }

  lemma {:induction false} MatchedSnoc(t: Routes, packets: seq<seq<byte>>, buf: seq<byte>)
    ensures Matched(t, packets + [buf]) == Matched(t, packets) + if RouteOf(t, buf).Some? then 1 else 0
  {
    if packets == [] {
      assert packets + [buf] == [buf];
    } else {
      assert (packets + [buf])[1..] == packets[1..] + [buf];
      MatchedSnoc(t, packets[1..], buf);
    }
  }

  /** The places of a batch whose packets have a route. */
  function Hits(t: Routes, packets: seq<seq<byte>>, n: nat): set<nat>
    requires n <= |packets|
  {
    set i: nat | i < n && RouteOf(t, packets[i]).Some?
  }

  lemma HitsNext(t: Routes, packets: seq<seq<byte>>, n: nat)
    requires n < |packets|
    ensures |Hits(t, packets, n + 1)| == |Hits(t, packets, n)| + if RouteOf(t, packets[n]).Some? then 1 else 0
  {
    var now := Hits(t, packets, n);
    if RouteOf(t, packets[n]).Some? {
      assert Hits(t, packets, n + 1) == now + {n};
    } else {
      assert Hits(t, packets, n + 1) == now;
    }
  }

  /** The hit count is the number of packets with a route. */
  lemma {:induction false} MatchedIs(t: Routes, packets: seq<seq<byte>>, n: nat)
    requires n <= |packets|
    ensures Matched(t, packets[..n]) == |Hits(t, packets, n)|
  {
    if n > 0 {
      MatchedIs(t, packets, n - 1);
      MatchedSnoc(t, packets[..n - 1], packets[n - 1]);
      assert packets[..n] == packets[..n - 1] + [packets[n - 1]];
      HitsNext(t, packets, n - 1);
    }
  }

  /** IPv6 in syntax, IPv4 by To4 after masking. */
  predicate Overlong(f: Family, p: Prefix)
    requires |p| <= 8 * f.Width()
  {
    f.V6? && Mapped(Network(p, 16))
  }

  lemma BitsOfFront(ip: seq<byte>, k: nat)
    requires k <= |ip|
    ensures Bits(ip[..k]) == Bits(ip)[..8 * k]
  {
  }

  /** The prefixes that panic: IPv6 ones inside ::ffff:0:0/96. */
  lemma OverlongIff(f: Family, p: Prefix)
    requires |p| <= 8 * f.Width()
    ensures Overlong(f, p) <==> f == V6 && Bits(MAPPED) <= p
  {
    if f.V6? {
      var ip := Network(p, 16);
      NetworkBits(p, 16);
      BitsOfFront(ip, 12);
      if Mapped(ip) {
        MappedIsLong(p);
        assert ip[..12] == MAPPED;
      }
      if Bits(MAPPED) <= p {
        BitsInjective(ip[..12], MAPPED);
        assert forall i :: 0 <= i < 12 ==> ip[i] == ip[..12][i] == MAPPED[i];
      }
    }
  }

  class Router {
    const v4: T.Trie
    const v6: T.Trie

    ghost var routes: Routes           // the tables the two tries stand for
    ghost var Repr: set<object>

    ghost predicate Valid()
      reads this, Repr
      ensures Valid() ==> this in Repr
    {
      && this in Repr && v4 in Repr && v6 in Repr && v4 != v6 && v4.width == 4 && v6.width == 16
      && v4.nodes.Values <= Repr && v6.nodes.Values <= Repr && v4.nodes.Values !! v6.nodes.Values
      && v4.Valid() && v6.Valid()
      && routes == Routes(v4.View(), v6.View())
    }

    constructor ()
      ensures Valid() && fresh(Repr) && routes == Routes(map[], map[])
    {
      v4 := new T.Trie(4);
      v6 := new T.Trie(16);
      new;
      routes := Routes(v4.View(), v6.View());
      Repr := {this, v4, v6} + v4.nodes.Values + v6.nodes.Values;
    }

    method LookUp(f: Family, ip: seq<byte>) returns (r: Option<Any>)
      requires Valid()
      ensures r == routes.LookUp(f, ip)
    {
      if f.V4? { r := v4.Lookup(ip); } else { r := v6.Lookup(ip); }
    }

    method Route(buf: seq<byte>) returns (r: Option<Any>)
      requires Valid()
      ensures r == RouteOf(routes, buf)
    {
      var d := DestinationOf(buf);
      if d.None? { return None; }
      r := LookUp(d.value.0, d.value.1);
    }

    /** Runs backwards over the packets and counts the hits. */
    method RouteBatch(packets: seq<seq<byte>>, targets: array<Any>) returns (count: nat)
      requires Valid() && |packets| <= targets.Length && targets !in Repr
      modifies targets
      ensures forall i :: 0 <= i < |packets| ==> targets[i] == TargetOf(routes, packets[i])
      ensures count == Matched(routes, packets)
    {
      count := 0;
      var i := |packets|;
      ghost var t := routes;
      while i > 0
        invariant 0 <= i <= |packets|
        invariant forall k :: i <= k < |packets| ==> targets[k] == TargetOf(t, packets[k])
        invariant count == Matched(t, packets[i..])
      {
        i := i - 1;
        assert packets[i..][1..] == packets[i + 1..];
        var r := Route(packets[i]);
        if r.Some? {
          targets[i] := r.value;
          count := count + 1;
        } else {
          targets[i] := Nil;
        }
      }
      assert packets[0..] == packets;
    }

    method RouteString(addr: string) returns (r: Option<Any>)
      requires Valid()
      ensures r == RouteOfText(routes, addr)
    {
      var a := ParseAddress(addr);
      if a.None? { return None; }
      var ip := To4(a.value);
      r := LookUp(ip.0, ip.1);
    }

    method Insert4(p: Prefix, val: Any)
      requires Valid() && |p| <= 32
      modifies Repr
      ensures Valid() && fresh(Repr - old(Repr))
      ensures routes == Routes(old(routes).v4[p := val], old(routes).v6)
    {
      NetworkBits(p, 4);
      ghost var ns := v6.nodes;
      v4.Insert(Network(p, 4), |p|, val);
      assert v6.nodes == ns && v6.nodes.Values !! v4.nodes.Values;
      assert v6.Valid() && v6.View() == routes.v6;
      Repr := Repr + v4.nodes.Values;
      routes := Routes(v4.View(), routes.v6);
    }

    method Insert6(p: Prefix, val: Any)
      requires Valid() && |p| <= 128
      modifies Repr
      ensures Valid() && fresh(Repr - old(Repr))
      ensures routes == Routes(old(routes).v4, old(routes).v6[p := val])
    {
      NetworkBits(p, 16);
      ghost var ns := v4.nodes;
      v6.Insert(Network(p, 16), |p|, val);
      assert v4.nodes == ns && v4.nodes.Values !! v6.nodes.Values;
      assert v4.Valid() && v4.View() == routes.v4;
      Repr := Repr + v6.nodes.Values;
      routes := Routes(routes.v4, v6.View());
    }

    method Remove(f: Family, p: Prefix)
      requires Valid() && |p| <= 8 * f.Width()
      modifies Repr
      ensures Valid() && fresh(Repr - old(Repr))
      ensures routes == old(routes).With(f, old(routes).For(f) - {p})
    {
      var ip := Network(p, f.Width());
      assert Bits(ip)[..|p|] == p by { NetworkBits(p, f.Width()); }
      if f.V4? {
        v4.Remove(ip, |p|);
        routes := routes.(v4 := v4.View());
      } else {
        v6.Remove(ip, |p|);
        routes := routes.(v6 := v6.View());
      }
    }

    /**
      A text in ::ffff:0:0/96 with 96 bits or more is taken for IPv4, with more bits than an IPv4
      address has: the walk creates all 32 nodes and then runs off the address.
     */
    method Register(addr: string, val: Any) returns (panicked: bool)
      requires Valid()
      modifies Repr
      ensures Valid() && fresh(Repr - old(Repr))
      ensures var c := ParseCidr(addr);
              && (panicked <==> c.Some? && Overlong(c.value.0, c.value.1))
              && routes == if c.None? || panicked then old(routes)
                           else old(routes).With(c.value.0, old(routes).For(c.value.0)[c.value.1 := val])
    {
      var c := ParseCidr(addr);
      panicked := c.Some? && Overlong(c.value.0, c.value.1);
      if panicked {
        MappedIsLong(c.value.1);
        WalkOff(Network(c.value.1, 16)[12..]);
      } else if c.Some? {
        if c.value.0.V4? { Insert4(c.value.1, val); } else { Insert6(c.value.1, val); }
      }
    }

    /** All nodes on the way to an IPv4 address, and no route. */
    method WalkOff(ip: seq<byte>)
      requires Valid() && |ip| == 4
      modifies Repr
      ensures Valid() && fresh(Repr - old(Repr)) && routes == old(routes)
    {
      var last := v4.Walk(ip, 32);
      assert v6.Valid() && v6.View() == routes.v6;
      Repr := Repr + v4.nodes.Values;
    }

    /** The same texts: the walk gives up at a missing node, or runs off the address if none is missing. */
    method UnRegister(addr: string) returns (panicked: bool)
      requires Valid()
      modifies Repr
      ensures Valid() && fresh(Repr - old(Repr))
      ensures var c := ParseCidr(addr);
              && (panicked <==> c.Some? && Overlong(c.value.0, c.value.1)
                                && Bits(Network(c.value.1, 16)[12..]) in old(v4.nodes))
              && routes == if c.None? || Overlong(c.value.0, c.value.1) then old(routes)
                           else old(routes).With(c.value.0, old(routes).For(c.value.0) - {c.value.1})
    {
      var c := ParseCidr(addr);
      panicked := false;
      if c.Some? && Overlong(c.value.0, c.value.1) {
        MappedIsLong(c.value.1);
        var ip := Network(c.value.1, 16)[12..];
        var node := v4.Find(ip, 32);
        assert Bits(ip)[..32] == Bits(ip);
        panicked := node != null;
      } else if c.Some? {
        Remove(c.value.0, c.value.1);
      }
    }

    /** What MD5 is computed over. */
    method HashText() returns (text: string)
      requires Valid()
      ensures text == routes.HashText()
    {
      text := v4.HashText() + v6.HashText();
    }

    /** The CIDR texts of all routes, IPv4 first. */
    method Keys() returns (keys: seq<string>)
      requires Valid()
      ensures Fit(V4, Tables.Keys(routes.v4)) && Fit(V6, Tables.Keys(routes.v6))
      ensures keys == Texts(V4, Tables.Keys(routes.v4)) + Texts(V6, Tables.Keys(routes.v6))
    {
      var a := KeysOf(V4, v4, routes.v4);
      var b := KeysOf(V6, v6, routes.v6);
      keys := a + b;
    }
  }

  predicate Fit(f: Family, ps: seq<Prefix>) {
    forall i :: 0 <= i < |ps| ==> |ps[i]| <= 8 * f.Width()
  }

  function Texts(f: Family, ps: seq<Prefix>): (r: seq<string>)
    requires Fit(f, ps)
    ensures |r| == |ps|
  {
    if ps == [] then [] else Texts(f, ps[..|ps| - 1]) + [CidrText(f, ps[|ps| - 1])]
  }

  lemma {:induction false} TextsAt(f: Family, ps: seq<Prefix>, i: nat)
    requires Fit(f, ps) && i < |ps|
    ensures Texts(f, ps)[i] == CidrText(f, ps[i])
  {
    if i < |ps| - 1 {
      TextsAt(f, ps[..|ps| - 1], i);
    }
  }

  method KeysOf(f: Family, t: T.Trie, ghost m: Table) returns (keys: seq<string>)
    requires t.Valid() && t.width == f.Width() && m == t.View()
    ensures Fit(f, Tables.Keys(m)) && keys == Texts(f, Tables.Keys(m))
  {
    var ps := t.AllRoutes();
    keys := PrintAll(f, ps);
  }

  method PrintAll(f: Family, ps: seq<Prefix>) returns (keys: seq<string>)
    requires Fit(f, ps)
    ensures keys == Texts(f, ps)
  {
    keys := [];
    for i := 0 to |ps|
      invariant keys == Texts(f, ps[..i])
    {
      var s := PrefixToCidr(f, ps[i]);
      keys := keys + [s];
      assert ps[..i + 1][..i] == ps[..i];
    }
    assert ps[..|ps|] == ps;
  }
}
