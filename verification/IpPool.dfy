/** The IPv4 address allocator: its range arithmetic, and what assignments and releases keep. */
module IpPool {
  import opened Bytes
  import opened Prefixes
  import opened Cidr

  const FULL := 0x1_0000_0000

  /** A network: its (masked) address and its prefix length. */
  datatype Network = Network(address: uint32, bits: nat) {
    ghost predicate Valid() {
      bits <= 32 && address % Pow2(32 - bits) == 0 && address + Pow2(32 - bits) <= FULL
    }

    function Broadcast(): int
      requires bits <= 32
    {
      address + Pow2(32 - bits) - 1
    }

    /** The range the constructor computes by overwriting the last byte with 1 and with 254. */
    function First(): int { LastByte(address, 1) }

    function Last(): int
      requires bits <= 32
    {
      LastByte(Broadcast(), 254)
    }

    function Total(): int
      requires bits <= 32
    {
      if First() > Last() then 0 else Last() - First() + 1
    }

    predicate Contains(x: uint32)
      requires bits <= 32
    {
      address <= x <= Broadcast()
    }
  }

  function LastByte(x: int, b: byte): int { x - x % 0x100 + b }

  // ----- the range

  lemma {:induction false} Pow2Grows(j: nat, k: nat)
    requires j < k
    ensures 2 * Pow2(j) <= Pow2(k)
  {
    if j < k - 1 { Pow2Grows(j, k - 1); }
  }

  lemma {:induction false} Pow2Multiple(k: nat)
    requires k >= 8
    ensures Pow2(k) % 0x100 == 0
  {
    if k == 8 { Pow2Of8(); } else { Pow2Multiple(k - 1); }
  }

  lemma Pow2Step(k: nat)
    ensures k >= 8 ==> Pow2(k) % 0x100 == 0 && Pow2(k) >= 0x100
    ensures k < 8 ==> 0 < Pow2(k) <= 128
  {
    Pow2Of8();
    if k < 8 {
      Pow2Grows(k, 8);
    } else {
      Pow2Multiple(k);
      if k > 8 { Pow2Grows(8, k); }
    }
  }

  lemma MultipleOf256(a: int, m: nat)
    requires m > 0 && m % 0x100 == 0 && a % m == 0
    ensures a % 0x100 == 0
  {
    var q, r := a / m, m / 0x100;
    assert a == q * m && m == 0x100 * r;
    assert a == 0x100 * (q * r);
  }

  /** For prefixes up to /24 the range is everything strictly between network and broadcast address. */
  lemma RangeOfWideNetwork(n: Network)
    requires n.Valid() && n.bits <= 24
    ensures n.First() == n.address + 1 && n.Last() == n.Broadcast() - 1 && n.Total() == Pow2(32 - n.bits) - 2
  {
    Pow2Step(32 - n.bits);
    MultipleOf256(n.address, Pow2(32 - n.bits));
    LastBytes(n.address, Pow2(32 - n.bits));
  }

  /** Beyond /24 the range is that of the whole block of 256 addresses the network lies in. */
  lemma RangeOfNarrowNetwork(n: Network)
    requires n.Valid() && n.bits > 24
    ensures var block := n.address / 0x100 * 0x100;
            n.First() == block + 1 && n.Last() == block + 254 && n.Total() == 254
  {
    var k := 32 - n.bits;
    Pow2Product(k, 8 - k);
    Pow2Of8();
    SameBlock(n.address, Pow2(k), Pow2(8 - k));
    BlockBytes(n.address, n.Broadcast());
  }

  lemma {:induction false} Pow2Product(j: nat, k: nat)
    ensures Pow2(j) * Pow2(k) == Pow2(j + k)
  {
    if j > 0 { Pow2Product(j - 1, k); }
  }

  /** An aligned network whose size divides 256 does not cross a multiple of 256. */
  lemma SameBlock(a: nat, size: nat, parts: nat)
    requires size > 0 && size * parts == 0x100 && a % size == 0
    ensures (a + size - 1) / 0x100 == a / 0x100
  {
    var q := a / size;
    assert a == q * size;
    Regroup(q / parts, q % parts, parts, size);
    InBlock(a, q / parts, q % parts * size);
    InBlock(a + size - 1, q / parts, q % parts * size + size - 1);
  }

  lemma Regroup(block: nat, part: nat, parts: nat, size: nat)
    requires part < parts && size * parts == 0x100
    ensures (block * parts + part) * size == block * 0x100 + part * size && part * size + size <= 0x100
  {
    assert block * parts * size == block * (size * parts);
    assert (part + 1) * size <= parts * size;
  }

  lemma InBlock(a: nat, block: nat, rest: nat)
    requires a == block * 0x100 + rest && rest < 0x100
    ensures a / 0x100 == block
  {
  }

  lemma BlockBytes(a: nat, b: nat)
    requires a / 0x100 == b / 0x100
    ensures LastByte(a, 1) == a / 0x100 * 0x100 + 1 && LastByte(b, 254) == a / 0x100 * 0x100 + 254
  {
  }

  lemma LastBytes(a: int, size: int)
    requires a % 0x100 == 0 && size % 0x100 == 0
    ensures LastByte(a, 1) == a + 1 && LastByte(a + size - 1, 254) == a + size - 2
  {
  }

  /** Beyond /24 the range spills over: it lies strictly inside the network exactly up to /24. */
  lemma RangeInsideIff(n: Network)
    requires n.Valid()
    ensures n.address < n.First() && n.Last() < n.Broadcast() <==> n.bits <= 24
  {
    if n.bits <= 24 {
      RangeOfWideNetwork(n);
    } else {
      Pow2Step(32 - n.bits);
      NarrowSpills(n.address, Pow2(32 - n.bits));
    }
  }

  lemma NarrowSpills(a: int, size: int)
    requires 0 < size <= 128
    ensures !(a < LastByte(a, 1) && LastByte(a + size - 1, 254) < a + size - 1)
  {
  }

  lemma RangeNotEmpty(n: Network)
    requires n.Valid()
    ensures 0 <= n.First() <= n.Last() < FULL
  {
    BytesInOrder(n.address, n.Broadcast());
  }

  lemma BytesInOrder(a: int, b: int)
    requires 0 <= a <= b < FULL
    ensures 0 <= LastByte(a, 1) <= LastByte(b, 254) < FULL
  {
    var i, j := a / 0x100, b / 0x100;
    assert a == i * 0x100 + a % 0x100 && b == j * 0x100 + b % 0x100;
    assert i <= j < FULL / 0x100;
  }

  // ----- texts

  function IpText(x: uint32): string { AddressText(V4, PutUint32(x)) }

  lemma IpTextInjective(x: uint32, y: uint32)
    requires IpText(x) == IpText(y)
    ensures x == y
  {
    AddressRoundTrip(V4, PutUint32(x));
    AddressRoundTrip(V4, PutUint32(y));
  }

  /** net.ParseIP, as far as it is an IPv4 address: dotted, or mapped into IPv6. */
  function ParseIp(s: string): (r: Option<uint32>) {
    var a := ParseAddress(s);
    if a.None? then None
    else
      var b := To4(a.value);
      if b.0.V4? then Some(Uint32(b.1)) else None
  }

  lemma ParseIpText(x: uint32)
    ensures ParseIp(IpText(x)) == Some(x)
  {
    AddressRoundTrip(V4, PutUint32(x));
  }

  /** Every address has another text. */
  lemma ParseMapped(x: uint32)
    ensures ParseIp(MappedText(PutUint32(x))) == Some(x) && MappedText(PutUint32(x)) != IpText(x)
  {
    MappedRoundTrip(PutUint32(x));
    V4Chars(PutUint32(x));
    assert ColonText([]) == "" && MappedText(PutUint32(x))[0] == ':';
  }

  /** A text of an address that is not the printed one. */
  predicate Alias(t: string) { ParseIp(t).Some? && t != IpText(ParseIp(t).value) }

  lemma AliasIsNoText(t: string, x: uint32)
    ensures Alias(t) ==> t != IpText(x)
  {
    ParseIpText(x);
  }

  /** Aliases are IPv6 texts: what has no colon is printed that way. */
  lemma DottedIsPrinted(t: string)
    requires ':' !in t && ParseIp(t).Some?
    ensures t == IpText(ParseIp(t).value) && !Alias(t)
  {
    var ip := ParseAddress(t).value.1;
    DottedIsCanonical(t, ip);
    PutOfUint32(ip);
  }

  /** "address/bits", as the assign calls return it and ReleaseIP takes it. */
  function Lease(n: Network, x: uint32): string { IpText(x) + ['/'] + Numeral(n.bits, 10) }

  lemma LeaseAddress(n: Network, x: uint32)
    ensures Split(Lease(n, x), '/')[0] == IpText(x) && Split(IpText(x), '/')[0] == IpText(x)
  {
    AddressRoundTrip(V4, PutUint32(x));
    SlashParts(IpText(x), n.bits);
    SplitNone(IpText(x), '/');
  }

  /** A lease is the address in its network, in CIDR notation. */
  lemma LeaseParses(n: Network, x: uint32)
    requires n.bits <= 32
    ensures ParseCidr(Lease(n, x)) == Some((V4, Bits(PutUint32(x))[..n.bits]))
    ensures Split(Lease(n, x), '/') == [IpText(x), Numeral(n.bits, 10)]
  {
    HostBitsDropped(V4, PutUint32(x), n.bits);
    AddressRoundTrip(V4, PutUint32(x));
    SlashParts(IpText(x), n.bits);
  }

  // ----- the operations, on the set of held addresses

  datatype Op =
    | ByOffset(offset: uint32)
    | Specific(x: uint32)
    | Random(picks: seq<nat>)
    | Release(x: uint32)

  type Held = set<uint32>

  /** The address AssignByOffset aims at: the sum is a uint32. */
  function OffsetTarget(n: Network, offset: uint32): uint32
    requires n.Valid()
  {
    (n.First() + offset) % FULL
  }

  /** start + Intn(end - start + 1), for a draw k. */
  function Candidate(n: Network, k: nat): (x: uint32)
    requires n.Valid()
    ensures n.First() <= x <= n.Last()
  {
    RangeNotEmpty(n);
    n.First() + k % (n.Last() - n.First() + 1)
  }

  /** The first random candidate that is free. */
  function PickFree(n: Network, held: Held, picks: seq<nat>): (r: Option<uint32>)
    requires n.Valid()
    ensures r.Some? ==> n.First() <= r.value <= n.Last() && r.value !in held
  {
    if picks == [] then None
    else
      var x := Candidate(n, picks[0]);
      if x !in held then Some(x) else PickFree(n, held, picks[1..])
  }

  /** The address an operation assigns, if it succeeds. */
  function Assigned(n: Network, held: Held, op: Op): Option<uint32>
    requires n.Valid()
  {
    match op
    case ByOffset(offset) =>
      var x := OffsetTarget(n, offset);
      if x > n.Last() || x in held then None else Some(x)
    case Specific(x) =>
      if !n.Contains(x) || x in held || x < n.First() || x > n.Last() then None else Some(x)
    case Random(picks) => if |held| >= n.Total() then None else PickFree(n, held, picks)
    case Release(_) => None
  }

  function Apply(n: Network, held: Held, op: Op): Held
    requires n.Valid()
  {
    match op
    case Release(x) => held - {x}
    case _ => var a := Assigned(n, held, op); if a.Some? then held + {a.value} else held
  }

  function Run(n: Network, held: Held, ops: seq<Op>): Held
    requires n.Valid()
    decreases |ops|
  {
    if ops == [] then held else Run(n, Apply(n, held, ops[0]), ops[1..])
  }

  ghost predicate InRange(n: Network, held: Held)
    requires n.bits <= 32
  {
    forall x :: x in held ==> n.First() <= x <= n.Last()
  }

  /** An offset stays in the range exactly when the 32-bit sum does not wrap. */
  lemma OffsetInRangeIff(n: Network, held: Held, offset: uint32)
    requires n.Valid() && Assigned(n, held, ByOffset(offset)).Some?
    ensures var x := Assigned(n, held, ByOffset(offset)).value;
            n.First() <= x <= n.Last() <==> n.First() + offset < FULL
  {
    RangeNotEmpty(n);
  }

  predicate Plain(n: Network, op: Op) { op.ByOffset? ==> n.First() + op.offset < FULL }

  /** An operation leaves the range exactly if it assigns by an offset that wraps. What it assigns was free. */
  lemma ApplyKeepsIff(n: Network, held: Held, op: Op)
    requires n.Valid() && InRange(n, held)
    ensures InRange(n, Apply(n, held, op)) <==> Plain(n, op) || Assigned(n, held, op).None?
    ensures Assigned(n, held, op).Some? ==> Assigned(n, held, op).value !in held
  {
    RangeNotEmpty(n);
    var a := Assigned(n, held, op);
    if a.Some? {
      assert a.value in Apply(n, held, op);
      if op.ByOffset? { OffsetInRangeIff(n, held, op.offset); }
    }
  }

  lemma {:induction false} RunKeeps(n: Network, held: Held, ops: seq<Op>)
    requires n.Valid() && InRange(n, held) && forall i :: 0 <= i < |ops| ==> Plain(n, ops[i])
    ensures InRange(n, Run(n, held, ops))
    decreases |ops|
  {
    if ops != [] {
      ApplyKeepsIff(n, held, ops[0]);
      RunKeeps(n, Apply(n, held, ops[0]), ops[1..]);
    }
  }

  /** Pigeonhole: a set of integers in an interval is no larger than the interval. */
  lemma {:induction false} IntervalBound(s: set<uint32>, lo: int, hi: int)
    requires lo <= hi + 1 && forall x :: x in s ==> lo <= x <= hi
    ensures |s| <= hi - lo + 1
    decreases hi - lo + 1
  {
    if lo > hi {
      assert s == {};
    } else {
      IntervalBound(s - {hi}, lo, hi - 1);
      assert |s| <= |s - {hi}| + 1 by {
        if hi in s { assert |s - {hi}| == |s| - 1; } else { assert s - {hi} == s; }
      }
    }
  }

  /**
    In every run on a network of at most 24 prefix bits, with offsets that do not wrap, every held
    address lies strictly between network and broadcast address and no more than 2^(32-p) - 2 are held.
   */
  lemma {:induction false} PoolIsSafe(n: Network, ops: seq<Op>)
    requires n.Valid() && n.bits <= 24 && forall i :: 0 <= i < |ops| ==> Plain(n, ops[i])
    ensures var held := Run(n, {}, ops);
            && (forall x :: x in held ==> n.address < x < n.Broadcast())
            && |held| <= n.Total() == Pow2(32 - n.bits) - 2
  {
    RunKeeps(n, {}, ops);
    RangeOfWideNetwork(n);
    RangeNotEmpty(n);
    IntervalBound(Run(n, {}, ops), n.First(), n.Last());
  }

  /** For every network some offset wraps, and hands out address 0, which lies below the range. */
  lemma OffsetsEscape(n: Network)
    requires n.Valid()
    ensures var offset := FULL - n.First();
            0 <= offset < FULL && Assigned(n, {}, ByOffset(offset)) == Some(0) && 0 < n.First()
  {
    RangeNotEmpty(n);
    FirstPositive(n);
    WrapsToZero(n.First());
  }

  lemma FirstPositive(n: Network)
    ensures 0 < n.First()
  {
  }

  lemma WrapsToZero(first: int)
    ensures (first + (FULL - first)) % FULL == 0
  {
  }

  /** A wrapping offset hands out an address below the range, outside the network. */
  lemma WrappedOffset()
    ensures var n := Network(0x0A00_0000, 24);
            n.Valid() && Assigned(n, {}, ByOffset(0xF600_0000)) == Some(1) && !n.Contains(1)
  {
    Pow2Of8();
  }

  /** Every address held in any run with plain offsets lies strictly inside the network. */
  ghost predicate StaysInside(n: Network)
    requires n.Valid()
  {
    forall ops: seq<Op> :: (forall i :: 0 <= i < |ops| ==> Plain(n, ops[i])) ==>
      forall x :: x in Run(n, {}, ops) ==> n.address < x < n.Broadcast()
  }

  /** A plain offset that assigns x, the first thing in a run. */
  lemma FirstAssigned(n: Network, x: uint32)
    requires n.Valid() && n.First() <= x <= n.Last()
    ensures var op := ByOffset(x - n.First()); Plain(n, op) && Run(n, {}, [op]) == {x}
  {
    RangeNotEmpty(n);
    var op := ByOffset(x - n.First());
    assert n.First() + op.offset == x;
    assert OffsetTarget(n, op.offset) == x;
    assert Apply(n, {}, op) == {x};
    assert [op][1..] == [];
    assert Run(n, {x}, []) == {x};
  }

  /** The allocator keeps to the inside of its network exactly up to /24. */
  lemma {:induction false} StaysInsideIff(n: Network)
    requires n.Valid()
    ensures StaysInside(n) <==> n.bits <= 24
  {
    if n.bits <= 24 {
      forall ops: seq<Op> | forall i :: 0 <= i < |ops| ==> Plain(n, ops[i])
        ensures forall x :: x in Run(n, {}, ops) ==> n.address < x < n.Broadcast()
      {
        PoolIsSafe(n, ops);
      }
    } else {
      RangeInsideIff(n);
      RangeNotEmpty(n);
      var x := if n.First() <= n.address then n.First() else n.Last();
      FirstAssigned(n, x);
      var ops := [ByOffset(x - n.First())];
      assert x in Run(n, {}, ops) && !(n.address < x < n.Broadcast());
    }
  }

  // ----- what can be had

  lemma SmallMod(k: nat, m: nat)
    requires k < m
    ensures k % m == k
  {
  }

  lemma CandidateIs(n: Network, k: nat)
    requires n.Valid() && k < n.Total()
    ensures Candidate(n, k) == n.First() + k
  {
    RangeNotEmpty(n);
    SmallMod(k, n.Last() - n.First() + 1);
  }

  lemma OffsetTargetIs(n: Network, offset: uint32)
    requires n.Valid() && 0 <= n.First() + offset < FULL
    ensures OffsetTarget(n, offset) == n.First() + offset
  {
    SmallMod(n.First() + offset, FULL);
  }

  /** The draws below the size of the range hit every address of the range, each by one draw. */
  lemma CandidateIff(n: Network, x: uint32)
    requires n.Valid()
    ensures n.First() <= x <= n.Last() <==> exists k: nat :: k < n.Total() && Candidate(n, k) == x
    ensures forall j: nat, k: nat :: j < k < n.Total() ==> Candidate(n, j) != Candidate(n, k)
  {
    var first, last := n.First(), n.Last();
    RangeNotEmpty(n);
    forall k: nat | k < n.Total() ensures Candidate(n, k) == first + k { CandidateIs(n, k); }
    if first <= x <= last {
      var k := x - first;
      assert k < n.Total() && Candidate(n, k) == x;
    }
  }

  /** The first draw whose address is free decides; without one nothing is found. */
  lemma {:induction false} PickIs(n: Network, held: Held, picks: seq<nat>, i: nat)
    requires n.Valid() && i <= |picks| && forall j :: 0 <= j < i ==> Candidate(n, picks[j]) in held
    requires i < |picks| ==> Candidate(n, picks[i]) !in held
    ensures PickFree(n, held, picks) == if i < |picks| then Some(Candidate(n, picks[i])) else None
  {
    if i > 0 {
      forall j | 0 <= j < i - 1 ensures Candidate(n, picks[1..][j]) in held {
        assert picks[1..][j] == picks[j + 1];
      }
      PickIs(n, held, picks[1..], i - 1);
    }
  }

  lemma NotFull(held: Held, x: uint32, lo: int, hi: int)
    requires x !in held && lo <= x <= hi && forall y :: y in held ==> lo <= y <= hi
    ensures |held| < hi - lo + 1
  {
    IntervalBound(held + {x}, lo, hi);
    assert |held + {x}| == |held| + 1;
  }

  /** A free address of the range is handed out by offset, to a lucky draw, and by name if it is in the network. */
  lemma PoolServes(n: Network, held: Held, x: uint32)
    requires n.Valid() && InRange(n, held) && n.First() <= x <= n.Last() && x !in held
    ensures Assigned(n, held, ByOffset(x - n.First())) == Some(x)
    ensures Assigned(n, held, Random([x - n.First()])) == Some(x)
    ensures Assigned(n, held, Specific(x)) == if n.address <= x <= n.Broadcast() then Some(x) else None
  {
    RangeNotEmpty(n);
    var first, last := n.First(), n.Last();
    var k := x - first;
    OffsetTargetIs(n, k);
    CandidateIs(n, k);
    PickIs(n, held, [k], 0);
    NotFull(held, x, first, last);
  }

  /** Up to /24: an address can be had exactly if it is free and strictly inside the network, by name or by offset. */
  lemma WideAssigned(n: Network, held: Held, x: uint32, offset: uint32)
    requires n.Valid() && n.bits <= 24 && n.address + 1 + offset < FULL
    ensures Assigned(n, held, Specific(x))
         == if n.address < x < n.Broadcast() && x !in held then Some(x) else None
    ensures Assigned(n, held, ByOffset(offset))
         == if offset < Pow2(32 - n.bits) - 2 && n.address + 1 + offset !in held then Some(n.address + 1 + offset)
            else None
  {
    RangeOfWideNetwork(n);
    OffsetTargetIs(n, offset);
  }

  lemma {:induction false} RunAppend(n: Network, held: Held, a: seq<Op>, b: seq<Op>)
    requires n.Valid()
    ensures Run(n, held, a + b) == Run(n, Run(n, held, a), b)
    decreases |a|
  {
    if a == [] {
      assert a + b == b;
    } else {
      assert (a + b)[1..] == a[1..] + b;
      RunAppend(n, Apply(n, held, a[0]), a[1..], b);
    }
  }

  lemma RunOne(n: Network, held: Held, op: Op)
    requires n.Valid()
    ensures Run(n, held, [op]) == Apply(n, held, op)
  {
    assert [op][1..] == [];
    assert Run(n, Apply(n, held, op), []) == Apply(n, held, op);
  }

  /** A run that ends with exactly these addresses held. */
  lemma {:induction false} Fill(n: Network, held: Held) returns (ops: seq<Op>)
    requires n.Valid() && InRange(n, held)
    ensures (forall i :: 0 <= i < |ops| ==> Plain(n, ops[i])) && Run(n, {}, ops) == held
  {
    if held == {} {
      ops := [];
    } else {
      var x :| x in held;
      var before := Fill(n, held - {x});
      var op := ByOffset(x - n.First());
      RangeNotEmpty(n);
      PoolServes(n, held - {x}, x);
      assert Apply(n, held - {x}, op) == held - {x} + {x} == held;
      ops := before + [op];
      RunOne(n, held - {x}, op);
      RunAppend(n, {}, before, [op]);
    }
  }

  ghost predicate CanHold(n: Network, held: Held)
    requires n.Valid()
  {
    exists ops: seq<Op> :: (forall i :: 0 <= i < |ops| ==> Plain(n, ops[i])) && Run(n, {}, ops) == held
  }

  /** The sets of addresses that can be held, with offsets that do not wrap, are exactly the subsets of the range. */
  lemma {:induction false} CanHoldIff(n: Network, held: Held)
    requires n.Valid()
    ensures CanHold(n, held) <==> InRange(n, held)
  {
    if InRange(n, held) {
      var ops := Fill(n, held);
    } else if CanHold(n, held) {
      var ops: seq<Op> :| (forall i :: 0 <= i < |ops| ==> Plain(n, ops[i])) && Run(n, {}, ops) == held;
      RunKeeps(n, {}, ops);
      assert false;
    }
  }

  // ----- the allocator object

  class IpAllocator {
    const network: Network
    var taken: set<string>
    ghost var held: Held             // the addresses marked under their printed text
    ghost var aliases: set<string>   // the other texts that are marked

    ghost predicate Valid()
      reads this
    {
      && network.Valid() && taken == TextsOf(held) + aliases
      && forall t :: t in aliases ==> Alias(t)
    }

    constructor (n: Network)
      requires n.Valid()
      ensures Valid() && network == n && held == {} && aliases == {}
    {
      network := n;
      taken := {};
      held := {};
      aliases := {};
    }

    lemma HasText(x: uint32)
      requires Valid()
      ensures IpText(x) in taken <==> x in held
    {
      if IpText(x) in aliases { AliasIsNoText(IpText(x), x); }
      if y :| y in held && IpText(y) == IpText(x) { IpTextInjective(x, y); }
    }

    lemma HasAlias(t: string)
      requires Valid()
      ensures Alias(t) ==> (t in taken <==> t in aliases)
    {
      if x :| x in held && IpText(x) == t { AliasIsNoText(t, x); }
    }

    lemma Sizes()
      requires Valid()
      ensures |taken| == |held| + |aliases|
    {
      SameSize(held, TextsOf(held));
      forall t | t in aliases ensures t !in TextsOf(held) {
        if x :| x in held && IpText(x) == t { AliasIsNoText(t, x); }
      }
      assert |TextsOf(held) + aliases| == |TextsOf(held)| + |aliases| - |TextsOf(held) * aliases|;
      assert TextsOf(held) * aliases == {};
    }

    /** Some address is marked under two texts. */
    ghost predicate HeldTwice()
      reads this
    {
      exists s, t :: s in taken && t in taken && s != t && ParseIp(s).Some? && ParseIp(s) == ParseIp(t)
    }

    /** Without aliases no address is held twice. */
    lemma OnceWithoutAliases()
      requires Valid() && aliases == {}
      ensures !HeldTwice()
    {
      if s, t :| s in taken && t in taken && s != t && ParseIp(s).Some? && ParseIp(s) == ParseIp(t) {
        var x :| x in held && IpText(x) == s;
        var y :| y in held && IpText(y) == t;
        ParseIpText(x);
        ParseIpText(y);
      }
    }

    /** Marks a free address as held and returns its lease. */
    method Mark(x: uint32) returns (lease: string)
      requires Valid() && x !in held
      modifies this
      ensures Valid() && held == old(held) + {x} && aliases == old(aliases) && lease == Lease(network, x)
    {
      var text := AddressToString(V4, PutUint32(x));
      TextsWith(held, x);
      taken := taken + {text};
      held := held + {x};
      var bits := PrintNumeral(network.bits, 10);
      lease := text + ['/'] + bits;
    }

    method AssignByOffset(offset: uint32) returns (r: Option<string>)
      requires Valid()
      modifies this
      ensures Valid() && held == Apply(network, old(held), ByOffset(offset)) && aliases == old(aliases)
      ensures var a := Assigned(network, old(held), ByOffset(offset));
              r == if a.Some? then Some(Lease(network, a.value)) else None
    {
      var x := OffsetTarget(network, offset);
      if x > network.Last() { return None; }
      HasText(x);
      if IpText(x) in taken { return None; }
      var lease := Mark(x);
      r := Some(lease);
    }

    /** The text is marked as it is given: an alias does not mark the printed text, nor the other way round. */
    method AssignSpecific(ip: string) returns (ok: bool)
      requires Valid()
      modifies this
      ensures Valid()
      ensures var p := ParseIp(ip);
              if p.None? then !ok && held == old(held) && aliases == old(aliases)
              else if ip == IpText(p.value) then
                && ok == Assigned(network, old(held), Specific(p.value)).Some?
                && held == Apply(network, old(held), Specific(p.value)) && aliases == old(aliases)
              else
                && ok == (network.Contains(p.value) && ip !in old(aliases)
                          && network.First() <= p.value <= network.Last())
                && held == old(held) && aliases == if ok then old(aliases) + {ip} else old(aliases)
    {
      var p := ParseIp(ip);
      if p.None? { return false; }
      var x := p.value;
      if !network.Contains(x) { return false; }
      if ip == IpText(x) { HasText(x); } else { HasAlias(ip); }
      if ip in taken { return false; }
      if x < network.First() || x > network.Last() { return false; }
      MarkText(ip, x);
      ok := true;
    }

    /** Marks a text as it is given. */
    method MarkText(ip: string, ghost x: uint32)
      requires Valid() && ParseIp(ip) == Some(x)
      modifies this
      ensures Valid()
      ensures if ip == IpText(x) then held == old(held) + {x} && aliases == old(aliases)
              else held == old(held) && aliases == old(aliases) + {ip}
    {
      taken := taken + {ip};
      if ip == IpText(x) {
        TextsWith(held, x);
        held := held + {x};
      } else {
        aliases := aliases + {ip};
      }
    }

    /** Tries the random candidates in turn; the source draws 1000 of them. Aliases count as addresses. */
    method AssignRandom(picks: seq<nat>) returns (r: Option<string>)
      requires Valid()
      modifies this
      ensures Valid() && aliases == old(aliases)
      ensures if |old(held)| + |old(aliases)| >= network.Total() then r == None && held == old(held)
              else
                && held == Apply(network, old(held), Random(picks))
                && var a := Assigned(network, old(held), Random(picks));
                   r == if a.Some? then Some(Lease(network, a.value)) else None
    {
      Sizes();
      if |taken| >= network.Total() { return None; }
      var x := FindFree(picks);
      if x.None? { return None; }
      var lease := Mark(x.value);
      r := Some(lease);
    }

    method FindFree(picks: seq<nat>) returns (r: Option<uint32>)
      requires Valid()
      ensures r == PickFree(network, held, picks)
    {
      assert picks[0..] == picks;
      for i := 0 to |picks|
        invariant PickFree(network, held, picks) == PickFree(network, held, picks[i..])
      {
        var x := Candidate(network, picks[i]);
        assert picks[i..][0] == picks[i] && picks[i..][1..] == picks[i + 1..];
        HasText(x);
        if IpText(x) !in taken { return Some(x); }
      }
      r := None;
    }

    /** Frees exactly what is marked under the text, alias or printed. */
    method ReleaseIP(ip: string) returns (ok: bool)
      requires Valid()
      modifies this
      ensures Valid()
      ensures var t := Split(ip, '/')[0];
              && (ok <==> t in TextsOf(old(held)) || t in old(aliases))
              && held == Without(old(held), t) && aliases == old(aliases) - {t}
    {
      var text := Split(ip, '/')[0];
      TextsMinus(held, text);
      ok := text in taken;
      held := Without(held, text);
      aliases := aliases - {text};
      if ok { taken := taken - {text}; }
    }
  }

  /** The addresses whose printed text is another one. */
  ghost function Without(held: Held, text: string): Held { set x | x in held && IpText(x) != text }

  lemma TextsMinus(held: Held, text: string)
    ensures TextsOf(held) - {text} == TextsOf(Without(held, text))
  {
  }

  /** Releasing a printed text is releasing its address. */
  lemma WithoutIsRelease(n: Network, held: Held, x: uint32)
    requires n.Valid()
    ensures Without(held, IpText(x)) == Apply(n, held, Release(x))
  {
    forall y | y in held && IpText(y) == IpText(x) ensures y == x { IpTextInjective(x, y); }
  }

  /** Any address inside network and range can be held twice. */
  method AssignTwice(alloc: IpAllocator, x: uint32) returns (first: bool, second: bool)
    requires alloc.Valid() && x !in alloc.held && MappedText(PutUint32(x)) !in alloc.aliases
    requires alloc.network.Contains(x) && alloc.network.First() <= x <= alloc.network.Last()
    modifies alloc
    ensures first && second && alloc.Valid() && alloc.HeldTwice()
  {
    ParseIpText(x);
    ParseMapped(x);
    first := alloc.AssignSpecific(IpText(x));
    second := alloc.AssignSpecific(MappedText(PutUint32(x)));
    alloc.HasText(x);
    assert IpText(x) in alloc.taken && MappedText(PutUint32(x)) in alloc.taken;
  }

  /** The printed texts of a set of addresses. */
  ghost function TextsOf(held: Held): set<string> { set x | x in held :: IpText(x) }

  lemma TextsWith(held: Held, x: uint32)
    ensures TextsOf(held + {x}) == TextsOf(held) + {IpText(x)}
  {
    forall t ensures t in TextsOf(held + {x}) <==> t in TextsOf(held) + {IpText(x)} {
      if y :| y in held && IpText(y) == t { assert y in held + {x}; }
      assert x in held + {x};
    }
  }

  lemma {:induction false} SameSize(held: Held, texts: set<string>)
    requires texts == set x | x in held :: IpText(x)
    ensures |texts| == |held|
  {
    if held == {} {
      assert texts == {};
    } else {
      var x :| x in held;
      var rest := texts - {IpText(x)};
      forall y | y in held - {x} ensures IpText(y) in rest {
        if IpText(y) == IpText(x) { IpTextInjective(x, y); }
      }
      assert rest == set y | y in held - {x} :: IpText(y);
      SameSize(held - {x}, rest);
    }
  }
}
