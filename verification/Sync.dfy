/**
  Route synchronisation between client and server: compare the hash of the two tables, and when
  they differ fetch the server's key list and edit the client's table towards it. The server
  registers IPv4 routes only.
 */
module Sync {
  import opened Bytes
  import opened Prefixes
  import opened Tables
  import opened Cidr
  import opened RouteHash
  import opened Router

  ghost predicate Ipv4(m: Table) {
    forall p :: p in m ==> |p| <= 32
  }

  /** The target a client gives a new route: nil if the text begins like its own address, else a fresh destination. */
  function TargetFor(own: string, cidr: string, dial: string -> nat): Any {
    if own <= cidr then Nil else Dst(dial(cidr))
  }

  /** The client's table after one round: the server's keys, old targets kept. */
  ghost function Synced(client: Table, server: Table, own: string, dial: string -> nat): (r: Table)
    requires Ipv4(server)
    ensures r.Keys == server.Keys
  {
    map p | p in server :: if p in client then client[p] else TargetFor(own, CidrText(V4, p), dial)
  }

  /** The address part of a route's text leads to the network address, which the route itself matches. */
  lemma OwnAddressMatches(m: Table, p: Prefix)
    requires p in m && |p| <= 32
    ensures var a := ParseAddress(Split(CidrText(V4, p), '/')[0]);
            a.Some? && a.value.0 == V4 && LongestMatch(m, Bits(a.value.1)).Some?
  {
    var ip := Network(p, 4);
    assert ParseAddress(Split(CidrText(V4, p), '/')[0]) == Some((V4, ip)) by {
      if p == [] {
        AnyAddress();
      } else {
        CidrParts(V4, p);
        AddressRoundTrip(V4, ip);
      }
    }
    NetworkBits(p, 4);
  }

  lemma AnyAddress()
    ensures ParseAddress(Split(CidrText(V4, []), '/')[0]) == Some((V4, Network([], 4)))
  {
    var zero: seq<byte> := [0, 0, 0, 0];
    AnyIsZero();
    ZeroBits(zero);
    NetworkBits([], 4);
    BitsInjective(zero, Network([], 4));
    AddressRoundTrip(V4, zero);
    SlashParts(AddressText(V4, zero), 0);
  }

  /** One stale route: look its address up, and unregister it if that finds anything. */
  method RemoveRoute(r: Router, cidr: string, ghost p: Prefix)
    requires r.Valid() && |p| <= 32 && cidr == CidrText(V4, p) && p in r.routes.v4
    modifies r.Repr
    ensures r.Valid() && fresh(r.Repr - old(r.Repr))
    ensures r.routes == Routes(old(r.routes).v4 - {p}, old(r.routes).v6)
  {
    OwnAddressMatches(r.routes.v4, p);
    CidrRoundTrip(V4, p);
    var v := r.RouteString(Split(cidr, '/')[0]);
    if v.Some? {
      var panicked := r.UnRegister(cidr);
    }
  }

  method AddRoute(r: Router, cidr: string, val: Any, ghost p: Prefix)
    requires r.Valid() && |p| <= 32 && cidr == CidrText(V4, p)
    modifies r.Repr
    ensures r.Valid() && fresh(r.Repr - old(r.Repr))
    ensures r.routes == Routes(old(r.routes).v4[p := val], old(r.routes).v6)
  {
    CidrRoundTrip(V4, p);
    var panicked := r.Register(cidr, val);
  }

  /** The texts of a set of IPv4 prefixes, as an abstract one-to-one naming. */
  ghost predicate Naming(text: map<Prefix, string>) {
    && (forall p {:trigger CidrText(V4, p)} :: p in text ==> |p| <= 32 && text[p] == CidrText(V4, p))
    && (forall p, q :: p in text && q in text && text[p] == text[q] ==> p == q)
  }

  lemma NamingExists(ps: set<Prefix>) returns (text: map<Prefix, string>)
    requires forall p :: p in ps ==> |p| <= 32
    ensures Naming(text) && text.Keys == ps
  {
    text := map p | p in ps :: CidrText(V4, p);
    forall p, q | p in text && q in text && text[p] == text[q] ensures p == q {
      CidrInjective(V4, p, V4, q);
    }
  }

  /** A key list spells a set of prefixes. */
  ghost predicate Spells(names: set<string>, ps: set<Prefix>, text: map<Prefix, string>) {
    ps <= text.Keys && names == set p | p in ps :: text[p]
  }

  lemma TextsSpell(m: Table, names: seq<string>, text: map<Prefix, string>)
    requires Fit(V4, Keys(m)) && names == Texts(V4, Keys(m)) && Ipv4(m) && Naming(text) && m.Keys <= text.Keys
    ensures Spells((set s | s in names), m.Keys, text)
  {
    var ps := Keys(m);
    KeysComplete(m);
    forall p ensures p in ps <==> p in m {
      assert p in m ==> |p| <= 32;
    }
    forall i | 0 <= i < |ps| ensures names[i] == text[ps[i]] {
      assert ps[i] in ps;
      TextsAt(V4, ps, i);
    }
    ListSpells(ps, names, m.Keys, text);
  }

  lemma ListSpells(ps: seq<Prefix>, names: seq<string>, keys: set<Prefix>, text: map<Prefix, string>)
    requires |names| == |ps| && keys <= text.Keys && forall p :: p in ps <==> p in keys
    requires forall i {:trigger ps[i]} :: 0 <= i < |ps| ==> ps[i] in text && names[i] == text[ps[i]]
    ensures Spells((set s | s in names), keys, text)
  {
    forall s ensures s in names <==> s in (set p | p in keys :: text[p]) {
      if s in names {
        var i :| 0 <= i < |names| && names[i] == s;
        assert ps[i] in ps && s == text[ps[i]];
      }
      if p :| p in keys && text[p] == s {
        assert p in ps;
        var i :| 0 <= i < |ps| && ps[i] == p;
        assert names[i] == s;
      }
    }
  }

  /** RemoveRoute and AddRoute for a named prefix. */
  method Drop(r: Router, cidr: string, ghost p: Prefix, ghost text: map<Prefix, string>)
    requires r.Valid() && Naming(text) && p in text && cidr == text[p] && p in r.routes.v4
    modifies r.Repr
    ensures r.Valid() && fresh(r.Repr - old(r.Repr))
    ensures r.routes == Routes(old(r.routes).v4 - {p}, old(r.routes).v6)
  {
    assert cidr == CidrText(V4, p);
    RemoveRoute(r, cidr, p);
  }

  method Put(r: Router, cidr: string, val: Any, ghost p: Prefix, ghost text: map<Prefix, string>)
    requires r.Valid() && Naming(text) && p in text && cidr == text[p]
    modifies r.Repr
    ensures r.Valid() && fresh(r.Repr - old(r.Repr))
    ensures r.routes == Routes(old(r.routes).v4[p := val], old(r.routes).v6)
  {
    assert cidr == CidrText(V4, p);
    AddRoute(r, cidr, val, p);
  }

  lemma SpellsIn(names: set<string>, ps: set<Prefix>, text: map<Prefix, string>, p: Prefix)
    requires Naming(text) && Spells(names, ps, text) && p in text
    ensures text[p] in names <==> p in ps
  {
  }

  lemma SpellsRest(names: set<string>, ps: set<Prefix>, text: map<Prefix, string>, p: Prefix)
    requires Naming(text) && Spells(names, ps, text) && p in ps
    ensures Spells(names - {text[p]}, ps - {p}, text)
  {
  }

  lemma SpellsNothing(names: set<string>, ps: set<Prefix>, text: map<Prefix, string>)
    requires Spells(names, ps, text)
    ensures names == {} ==> ps == {}
  {
    assert forall p :: p in ps ==> text[p] in names;
  }

  ghost function Kept(client: Table, keep: set<Prefix>): Table {
    map p | p in client && p in keep :: client[p]
  }

  lemma KeptStep(client: Table, server: set<Prefix>, pending: set<Prefix>, p: Prefix)
    requires p in pending
    ensures var next := Kept(client, server + (pending - {p}));
            next == if p in server then Kept(client, server + pending) else Kept(client, server + pending) - {p}
  {
  }

  /** The first loop of updateRouter: routes the server does not list are removed, in any order. */
  method RemoveStale(r: Router, cip: set<string>, mip: set<string>,
                     ghost client: Table, ghost server: set<Prefix>, ghost text: map<Prefix, string>)
    requires r.Valid() && r.routes.v4 == client && Naming(text)
    requires Spells(cip, client.Keys, text) && Spells(mip, server, text)
    modifies r.Repr
    ensures r.Valid() && fresh(r.Repr - old(r.Repr))
    ensures r.routes == Routes(Kept(client, server), old(r.routes).v6)
  {
    var todo := cip;
    ghost var pending := client.Keys;
    assert Kept(client, server + pending) == client;
    while todo != {}
      invariant r.Valid() && fresh(r.Repr - old(r.Repr))
      invariant pending <= client.Keys && Spells(todo, pending, text)
      invariant r.routes == Routes(Kept(client, server + pending), old(r.routes).v6)
    {
      var cidr :| cidr in todo;
      ghost var p :| p in pending && cidr == text[p];
      SpellsIn(mip, server, text, p);
      SpellsRest(todo, pending, text, p);
      KeptStep(client, server, pending, p);
      if cidr !in mip {
        Drop(r, cidr, p, text);
      }
      todo, pending := todo - {cidr}, pending - {p};
    }
    SpellsNothing(todo, pending, text);
    assert server + pending == server;
  }

  ghost function Reached(goal: Table, client: Table, pending: set<Prefix>): Table {
    map p | p in goal && (p in client || p !in pending) :: goal[p]
  }

  lemma ReachedStep(goal: Table, client: Table, pending: set<Prefix>, p: Prefix)
    requires p in pending && p in goal
    ensures var next := Reached(goal, client, pending - {p});
            next == if p in client then Reached(goal, client, pending) else Reached(goal, client, pending)[p := goal[p]]
  {
  }

  /** One round of the second loop, for any of the names still to do. */
  method AddNext(r: Router, todo: set<string>, cip: set<string>, own: string, dial: string -> nat,
                 ghost client: Table, ghost goal: Table, ghost pending: set<Prefix>, ghost text: map<Prefix, string>)
    returns (rest: set<string>, ghost left: set<Prefix>)
    requires r.Valid() && Naming(text) && Spells(cip, client.Keys, text)
    requires todo != {} && pending <= goal.Keys && Spells(todo, pending, text)
    requires forall p :: p in goal && p !in client ==> p in text && goal[p] == TargetFor(own, text[p], dial)
    requires r.routes.v4 == Reached(goal, client, pending)
    modifies r.Repr
    ensures r.Valid() && fresh(r.Repr - old(r.Repr))
    ensures |rest| < |todo| && left <= pending && Spells(rest, left, text)
    ensures r.routes == Routes(Reached(goal, client, left), old(r.routes).v6)
  {
    var cidr :| cidr in todo;
    ghost var p :| p in pending && cidr == text[p];
    rest, left := todo - {cidr}, pending - {p};
    SpellsRest(todo, pending, text, p);
    SpellsIn(cip, client.Keys, text, p);
    ReachedStep(goal, client, pending, p);
    if cidr !in cip {
      Put(r, cidr, TargetFor(own, cidr, dial), p, text);
    }
  }

  /** The second loop of updateRouter: routes the client does not have are added, in any order. */
  method AddMissing(r: Router, cip: set<string>, mip: set<string>, own: string, dial: string -> nat,
                    ghost client: Table, ghost goal: Table, ghost text: map<Prefix, string>)
    requires r.Valid() && Naming(text) && Spells(cip, client.Keys, text) && Spells(mip, goal.Keys, text)
    requires r.routes.v4 == Reached(goal, client, goal.Keys)
    requires forall p :: p in goal && p !in client ==> p in text && goal[p] == TargetFor(own, text[p], dial)
    modifies r.Repr
    ensures r.Valid() && fresh(r.Repr - old(r.Repr))
    ensures r.routes == Routes(goal, old(r.routes).v6)
  {
    var todo := mip;
    ghost var pending := goal.Keys;
    while todo != {}
      invariant r.Valid() && fresh(r.Repr - old(r.Repr))
      invariant pending <= goal.Keys && Spells(todo, pending, text)
      invariant r.routes == Routes(Reached(goal, client, pending), old(r.routes).v6)
      decreases |todo|
    {
      todo, pending := AddNext(r, todo, cip, own, dial, client, goal, pending, text);
    }
    SpellsNothing(todo, pending, text);
    assert Reached(goal, client, pending) == goal;
  }

  /** Routes this module deals with: IPv4 prefixes, and nothing that IPv6 enumeration would show. */
  ghost predicate Ipv4Only(t: Routes) {
    Ipv4(t.v4) && forall p :: p in t.v6 ==> |p| >= MAX_DEPTH
  }

  lemma Ipv4HashText(t: Routes)
    requires Ipv4Only(t)
    ensures Keys(t.v6) == [] && Texts(V6, Keys(t.v6)) == [] && t.HashText() == HashInput(t.v4)
  {
    KeysComplete(t.v6);
    SortedUnique(Keys(t.v6), []);
  }

  /** What the server answers: the texts of its keys. */
  ghost predicate Lists(ips: seq<string>, server: Routes) {
    Ipv4Only(server) && Fit(V4, Keys(server.v4)) && ips == Texts(V4, Keys(server.v4))
  }

  /** One round makes the key sets, and with them the hash inputs, equal. */
  lemma RoundConverges(client: Routes, server: Routes, own: string, dial: string -> nat)
    requires Ipv4Only(client) && Ipv4Only(server)
    ensures var t := Routes(Synced(client.v4, server.v4, own, dial), client.v6);
            Ipv4Only(t) && t.v4.Keys == server.v4.Keys && t.HashText() == server.HashText()
  {
    var t := Routes(Synced(client.v4, server.v4, own, dial), client.v6);
    assert forall p :: p in t.v4 <==> p in t.v4.Keys;
    Ipv4HashText(t);
    Ipv4HashText(server);
    HashInputOfKeys(t.v4, server.v4);
  }

  /** The client's own keys, as a set of texts. */
  method OwnKeys(r: Router, ghost text: map<Prefix, string>) returns (cip: set<string>)
    requires r.Valid() && Ipv4Only(r.routes) && Naming(text) && r.routes.v4.Keys <= text.Keys
    ensures Spells(cip, r.routes.v4.Keys, text)
  {
    var keys := r.Keys();
    cip := set s | s in keys;
    Ipv4HashText(r.routes);
    assert keys == Texts(V4, Keys(r.routes.v4));
    TextsSpell(r.routes.v4, keys, text);
  }

  /** Both loops of updateRouter. */
  method EditRoutes(r: Router, cip: set<string>, mip: set<string>, own: string, dial: string -> nat,
                    ghost server: Table, ghost text: map<Prefix, string>)
    requires r.Valid() && Ipv4(server) && Naming(text)
    requires Spells(cip, r.routes.v4.Keys, text) && Spells(mip, server.Keys, text)
    modifies r.Repr
    ensures r.Valid() && fresh(r.Repr - old(r.Repr))
    ensures r.routes == Routes(Synced(old(r.routes).v4, server, own, dial), old(r.routes).v6)
  {
    ghost var client := r.routes.v4;
    ghost var goal := Synced(client, server, own, dial);
    forall p | p in goal && p !in client ensures goal[p] == TargetFor(own, text[p], dial) {
      assert text[p] == CidrText(V4, p);
    }
    RemoveStale(r, cip, mip, client, server.Keys, text);
    assert Kept(client, server.Keys) == Reached(goal, client, goal.Keys);
    AddMissing(r, cip, mip, own, dial, client, goal, text);
  }

  /** One round of updateRouter against a fixed IPv4 server table. */
  method UpdateRouter(r: Router, ips: seq<string>, own: string, dial: string -> nat, ghost server: Routes)
    requires r.Valid() && Ipv4Only(r.routes) && Lists(ips, server)
    modifies r.Repr
    ensures r.Valid() && fresh(r.Repr - old(r.Repr)) && Ipv4Only(r.routes)
    ensures r.routes == Routes(Synced(old(r.routes).v4, server.v4, own, dial), old(r.routes).v6)
    ensures r.routes.v4.Keys == server.v4.Keys && r.routes.HashText() == server.HashText()
  {
    RoundConverges(r.routes, server, own, dial);
    var text := NamingExists(r.routes.v4.Keys + server.v4.Keys);
    TextsSpell(server.v4, ips, text);
    var mip := set s | s in ips;
    var cip := OwnKeys(r, text);
    EditRoutes(r, cip, mip, own, dial, server.v4, text);
  }

  /** syncRouter: update only when the hashes differ. */
  method SyncRouter(r: Router, remote: string, ips: seq<string>, own: string, dial: string -> nat, ghost server: Routes)
    returns (updated: bool)
    requires r.Valid() && Ipv4Only(r.routes) && Lists(ips, server) && remote == server.HashText()
    modifies r.Repr
    ensures r.Valid() && fresh(r.Repr - old(r.Repr)) && Ipv4Only(r.routes)
    ensures updated <==> old(r.routes).HashText() != remote
    ensures updated ==> r.routes.v4.Keys == server.v4.Keys
    ensures !updated ==> r.routes == old(r.routes)
    ensures r.routes.HashText() == remote
  {
    var current := r.HashText();
    updated := current != remote;
    if updated {
      UpdateRouter(r, ips, own, dial, server);
    }
  }

  /** Convergence: against an unchanged server, a second sync never updates anything. */
  method SyncTwice(r: Router, remote: string, ips: seq<string>, own: string, dial: string -> nat, ghost server: Routes)
    returns (first: bool, second: bool)
    requires r.Valid() && Ipv4Only(r.routes) && Lists(ips, server) && remote == server.HashText()
    modifies r.Repr
    ensures !second
    ensures if first then r.routes.v4.Keys == server.v4.Keys else r.routes == old(r.routes)
  {
    first := SyncRouter(r, remote, ips, own, dial, server);
    second := SyncRouter(r, remote, ips, own, dial, server);
  }

  /** With host routes only, a client that sees no difference really has the server's routes. */
  lemma HostRoutesAgree(client: Routes, server: Routes)
    requires Ipv4Only(client) && Ipv4Only(server) && LengthsIn(client.v4, {32}) && LengthsIn(server.v4, {32})
    requires client.HashText() == server.HashText()
    ensures client.v4.Keys == server.v4.Keys
  {
    Ipv4HashText(client);
    Ipv4HashText(server);
    UniformIdentifies(client.v4, server.v4, {32});
  }

  // ----- which routes a client takes for its own

  function Parts(ip: seq<byte>): (r: seq<string>)
    requires |ip| == 4
    ensures |r| == 4 && forall i :: 0 <= i < 4 ==> r[i] == Numeral(ip[i], 10)
  {
    Numerals(Groups(V4, ip), 10)
  }

  lemma PartsAreSplit(ip: seq<byte>)
    requires |ip| == 4
    ensures Split(AddressText(V4, ip), '.') == Parts(ip) && '/' !in AddressText(V4, ip)
  {
    forall i | 0 <= i < 4 ensures '.' !in Parts(ip)[i] { NumeralIsDigits(ip[i], 10, '.'); }
    SplitJoin(Parts(ip), '.');
    AddressRoundTrip(V4, ip);
  }

  lemma SameNumeral(a: byte, b: byte)
    requires Numeral(a, 10) == Numeral(b, 10)
    ensures a == b
  {
    NumeralRoundTrip(a, 10);
    NumeralRoundTrip(b, 10);
  }

  lemma FourParts(ip: seq<byte>)
    requires |ip| == 4
    ensures var r := Parts(ip);
            AddressText(V4, ip) == (r[0] + ['.'] + (r[1] + ['.'] + (r[2] + ['.']))) + r[3]
  {
    var r := Parts(ip);
    assert r[1..][1..] == r[2..] && r[2..][1..] == r[3..] && r[3..] == [r[3]];
    assert Join(r[3..], '.') == r[3];
    assert Join(r[2..], '.') == r[2] + ['.'] + r[3];
    assert Join(r[1..], '.') == r[1] + ['.'] + (r[2] + ['.'] + r[3]);
  }

  /** One address text begins like another exactly when three bytes agree and the last numeral begins alike. */
  lemma TextBeginsIff(x: seq<byte>, y: seq<byte>)
    requires |x| == 4 && |y| == 4
    ensures AddressText(V4, x) <= AddressText(V4, y) <==> x[..3] == y[..3] && Numeral(x[3], 10) <= Numeral(y[3], 10)
  {
    var a, b := AddressText(V4, x), AddressText(V4, y);
    var p, q := Parts(x), Parts(y);
    if a <= b {
      var rest := b[|a|..];
      assert a + rest == b;
      PartsAreSplit(x);
      PartsAreSplit(y);
      SplitAppend(a, rest, '.');
      forall i | 0 <= i < 3 ensures x[i] == y[i] {
        assert q[i] == p[i];
        SameNumeral(x[i], y[i]);
      }
    } else if x[..3] == y[..3] {
      FourParts(x);
      FourParts(y);
      assert forall i :: 0 <= i < 3 ==> x[i] == x[..3][i] == y[..3][i] == y[i];
      assert !(p[3] <= q[3]);
    }
  }

  /**
    Exactly which host routes a client registers with nil: its own, and every address in the same
    /24 whose last number, in decimal, begins with the digits of its own.
   */
  lemma NilIff(own: seq<byte>, y: seq<byte>, dial: string -> nat)
    requires |own| == 4 && |y| == 4
    ensures TargetFor(AddressText(V4, own), CidrText(V4, Bits(y)), dial) == Nil
       <==> own[..3] == y[..3] && Numeral(own[3], 10) <= Numeral(y[3], 10)
  {
    var a, b := AddressText(V4, own), AddressText(V4, y);
    var tail := ['/'] + Numeral(32, 10);
    NetworkBits(Bits(y), 4);
    BitsInjective(Network(Bits(y), 4), y);
    assert CidrText(V4, Bits(y)) == b + tail;
    PartsAreSplit(own);
    BeginsBefore(a, b, tail);
    TextBeginsIff(own, y);
  }

  /** A text without a slash begins a text before the slash or not at all. */
  lemma BeginsBefore(a: string, b: string, tail: string)
    requires '/' !in a && tail != "" && tail[0] == '/'
    ensures a <= b + tail <==> a <= b
  {
    assert (b + tail)[|b|] == '/';
    if |a| <= |b| { assert (b + tail)[..|a|] == b[..|a|]; }
  }

  /** The target of a host route that the client did not have: nil as above, else the peer's own destination. */
  lemma HostTarget(client: Table, server: Table, own: seq<byte>, y: seq<byte>, dial: string -> nat)
    requires Ipv4(server) && |own| == 4 && |y| == 4 && Bits(y) in server && Bits(y) !in client
    ensures Synced(client, server, AddressText(V4, own), dial)[Bits(y)]
         == if own[..3] == y[..3] && Numeral(own[3], 10) <= Numeral(y[3], 10) then Nil
            else Dst(dial(AddressText(V4, y) + "/32"))
  {
    NilIff(own, y, dial);
    NetworkBits(Bits(y), 4);
    BitsInjective(Network(Bits(y), 4), y);
    assert Numeral(32, 10) == "32";
    assert ['/'] + "32" == "/32";
    assert AddressText(V4, y) + ['/'] + "32" == AddressText(V4, y) + "/32";
  }

  /** What a round does to packets for a host the server lists: the old target if there was one, else the new one. */
  lemma HostRouted(client: Routes, server: Table, own: seq<byte>, y: seq<byte>, dial: string -> nat, buf: seq<byte>)
    requires Ipv4(server) && |own| == 4 && Bits(y) in server && Addressed(buf, V4, y)
    ensures RouteOf(Routes(Synced(client.v4, server, AddressText(V4, own), dial), client.v6), buf)
         == if Bits(y) in client.v4 then Some(client.v4[Bits(y)])
            else if own[..3] == y[..3] && Numeral(own[3], 10) <= Numeral(y[3], 10) then Some(Nil)
            else Some(Dst(dial(AddressText(V4, y) + "/32")))
  {
    var m := Synced(client.v4, server, AddressText(V4, own), dial);
    assert |y| == 4 by { DestinationIff(buf, V4, y); }
    assert Bits(y)[..32] == Bits(y);
    RouteIs(Routes(m, client.v6), buf, V4, y, 32);
    if Bits(y) !in client.v4 { HostTarget(client.v4, server, own, y, dial); }
  }

  /** For example, a client at 10.0.0.1 takes 10.0.0.10 for itself. */
  lemma NeighbourLost(dial: string -> nat)
    ensures TargetFor(AddressText(V4, [10, 0, 0, 1]), CidrText(V4, Bits([10, 0, 0, 10])), dial) == Nil
  {
    NilIff([10, 0, 0, 1], [10, 0, 0, 10], dial);
    assert Numeral(1, 10) == "1" && Numeral(10, 10) == "10";
  }
}
