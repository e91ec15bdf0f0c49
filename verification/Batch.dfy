/**
  Batches on values: the greedy splitter of BatchWrite, the frame each chunk becomes, the batch
  parser, and the recovery of whole streams of calls.
 */
module Batch {
  import opened Bytes
  import opened Codec
  import opened Wire

  // ----- batch bodies

  function SizeList(packets: seq<Packet>): (s: seq<byte>)
    ensures |s| == 2 * |packets|
  {
    if packets == [] then [] else PutUint16(|packets[0]| % 0x1_0000) + SizeList(packets[1..])
  }

  /** sizes_length(2) + size(2) per packet + the packets back to back. */
  function Body(packets: seq<Packet>): seq<byte> {
    PutUint16(|packets| % 0x1_0000) + SizeList(packets) + Concat(packets)
  }

  /** Bytes a list of packets takes in a body, without the leading count. */
  function Cost(packets: seq<Packet>): (n: nat) {
    if packets == [] then 0 else 2 + |packets[0]| + Cost(packets[1..])
  }

  lemma {:induction false} CostIs(packets: seq<Packet>)
    ensures Cost(packets) == 2 * |packets| + |Concat(packets)|
    ensures |Body(packets)| == 2 + Cost(packets)
  {
    if packets != [] {
      CostIs(packets[1..]);
    }
  }

  lemma {:induction false} SizeListSnoc(packets: seq<Packet>, p: Packet)
    ensures SizeList(packets + [p]) == SizeList(packets) + PutUint16(|p| % 0x1_0000)
  {
    if packets == [] {
      assert packets + [p] == [p];
    } else {
      assert (packets + [p])[1..] == packets[1..] + [p];
      SizeListSnoc(packets[1..], p);
    }
  }

  lemma {:induction false} CostAppend(a: seq<Packet>, b: seq<Packet>)
    ensures Cost(a + b) == Cost(a) + Cost(b)
  {
    if a == [] {
      assert a + b == b;
    } else {
      assert (a + b)[1..] == a[1..] + b;
      CostAppend(a[1..], b);
    }
  }

  lemma {:induction false} PacketWithinCost(packets: seq<Packet>, i: nat)
    requires i < |packets|
    ensures 2 + |packets[i]| <= Cost(packets)
  {
    if i > 0 {
      PacketWithinCost(packets[1..], i - 1);
    }
  }

  function ParseSizes(s: seq<byte>, count: nat): (r: Option<seq<nat>>)
    ensures r.Some? <==> 2 * count <= |s|
    ensures r.Some? ==> |r.value| == count
  {
    if count == 0 then Some([])
    else if |s| < 2 then None
    else match ParseSizes(s[2..], count - 1)
      case None => None
      case Some(sizes) => Some([Uint16(s[..2])] + sizes)
  }

  function Cut(s: seq<byte>, sizes: seq<nat>): (r: Option<seq<Packet>>)
    ensures r.Some? ==> |r.value| == |sizes| && forall i :: 0 <= i < |sizes| ==> |r.value[i]| == sizes[i]
  {
    if sizes == [] then Some([])
    else if |s| < sizes[0] then None
    else match Cut(s[sizes[0]..], sizes[1..])
      case None => None
      case Some(packets) => Some([s[..sizes[0]]] + packets)
  }

  function Prepend<T>(done: seq<T>, rest: Option<seq<T>>): Option<seq<T>> {
    if rest.None? then None else Some(done + rest.value)
  }

  /** Loop invariant of the size table: `whole` is what has been read followed by what the rest will give. */
  ghost predicate SizesPending(whole: Option<seq<nat>>, data: seq<byte>, count: nat, i: nat, done: seq<nat>) {
    2 + 2 * i <= |data| && i <= count && whole == Prepend(done, ParseSizes(data[2 + 2 * i..], count - i))
  }

  lemma SizesStep(whole: Option<seq<nat>>, data: seq<byte>, count: nat, i: nat, done: seq<nat>)
    requires i < count && SizesPending(whole, data, count, i, done)
    ensures if 4 + 2 * i > |data| then whole.None?
            else SizesPending(whole, data, count, i + 1, done + [Uint16(data[2 + 2 * i..4 + 2 * i])])
  {
    if 4 + 2 * i <= |data| {
      var rest := data[2 + 2 * i..];
      assert rest[..2] == data[2 + 2 * i..4 + 2 * i] && rest[2..] == data[4 + 2 * i..];
      var tail := ParseSizes(rest[2..], count - i - 1);
      assert tail.Some? ==> done + ([Uint16(rest[..2])] + tail.value) == (done + [Uint16(rest[..2])]) + tail.value;
    }
  }

  /** `whole` is what has been cut off before `pos` followed by what the rest will give. */
  ghost predicate Pending(
    whole: Option<seq<Packet>>, s: seq<byte>, pos: nat, lens: seq<nat>, i: nat, done: seq<Packet>)
  {
    pos <= |s| && i <= |lens| && whole == Prepend(done, Cut(s[pos..], lens[i..]))
  }

  lemma CutStart(s: seq<byte>, pos: nat, lens: seq<nat>)
    requires pos <= |s|
    ensures Pending(Cut(s[pos..], lens), s, pos, lens, 0, [])
  {
    assert lens[0..] == lens;
    var whole := Cut(s[pos..], lens);
    assert whole.Some? ==> [] + whole.value == whole.value;
  }

  /** One round of ParseBatch's copying loop, over positions in the whole input. */
  lemma CutStep(whole: Option<seq<Packet>>, s: seq<byte>, pos: nat, lens: seq<nat>, i: nat, done: seq<Packet>)
    requires i < |lens| && Pending(whole, s, pos, lens, i, done)
    ensures if pos + lens[i] > |s| then whole.None?
            else Pending(whole, s, pos + lens[i], lens, i + 1, done + [s[pos..pos + lens[i]]])
  {
    if pos + lens[i] <= |s| {
      var packet := s[pos..pos + lens[i]];
      assert s[pos..][..lens[i]] == packet && s[pos..][lens[i]..] == s[pos + lens[i]..];
      assert lens[i..][1..] == lens[i + 1..];
      var tail := Cut(s[pos + lens[i]..], lens[i + 1..]);
      assert tail.Some? ==> done + ([packet] + tail.value) == (done + [packet]) + tail.value;
    }
  }

  lemma CutEnd(whole: Option<seq<Packet>>, s: seq<byte>, pos: nat, lens: seq<nat>, done: seq<Packet>)
    requires Pending(whole, s, pos, lens, |lens|, done)
    ensures whole == Some(done)
  {
    assert done + [] == done;
  }

  /** The packets a body claims to hold; `None` when it is shorter than it claims. */
  function Parse(body: seq<byte>): Option<seq<Packet>> {
    if |body| < 2 then None
    else
      var count := Uint16(body[..2]);
      match ParseSizes(body[2..], count)
      case None => None
      case Some(sizes) => Cut(body[2 + 2 * count..], sizes)
  }

  lemma {:induction false} CutPrefix(s: seq<byte>, rest: seq<byte>, sizes: seq<nat>)
    requires Cut(s, sizes).Some?
    ensures Cut(s + rest, sizes) == Cut(s, sizes)
  {
    if sizes != [] {
      assert (s + rest)[..sizes[0]] == s[..sizes[0]] && (s + rest)[sizes[0]..] == s[sizes[0]..] + rest;
      CutPrefix(s[sizes[0]..], rest, sizes[1..]);
    }
  }

  lemma {:induction false} SizesPrefix(s: seq<byte>, rest: seq<byte>, count: nat)
    requires ParseSizes(s, count).Some?
    ensures ParseSizes(s + rest, count) == ParseSizes(s, count)
  {
    if count > 0 {
      assert (s + rest)[..2] == s[..2] && (s + rest)[2..] == s[2..] + rest;
      SizesPrefix(s[2..], rest, count - 1);
    }
  }

  /** Whatever lies behind a complete body in its buffer does not matter. */
  lemma ParsePrefix(body: seq<byte>, rest: seq<byte>)
    requires Parse(body).Some?
    ensures Parse(body + rest) == Parse(body)
  {
    var s := body + rest;
    var count: nat := Uint16(body[..2]);
    assert s[..2] == body[..2] && s[2..] == body[2..] + rest;
    SizesPrefix(body[2..], rest, count);
    assert s[2 + 2 * count..] == body[2 + 2 * count..] + rest;
    CutPrefix(body[2 + 2 * count..], rest, ParseSizes(body[2..], count).value);
  }

  /** Parsing in two halves: p is what the size table cuts the rest of the body into. */
  ghost predicate Halved(body: seq<byte>, count: nat, p: Option<seq<Packet>>)
    requires |body| >= 2
  {
    var sizes := ParseSizes(body[2..], count);
    if sizes.None? then p.None?
    else 2 + 2 * count <= |body| && p == Cut(body[2 + 2 * count..], sizes.value)
  }

  lemma ParseHalves(body: seq<byte>, count: nat)
    requires |body| >= 2 && count == Uint16(body[..2])
    ensures Halved(body, count, Parse(body))
  {
  }

  function Lengths(packets: seq<Packet>): (r: seq<nat>)
    ensures |r| == |packets| && forall i :: 0 <= i < |r| ==> r[i] == |packets[i]|
  {
    if packets == [] then [] else [|packets[0]|] + Lengths(packets[1..])
  }

  lemma {:induction false} ParseSizesRoundTrip(packets: seq<Packet>, rest: seq<byte>)
    requires forall i :: 0 <= i < |packets| ==> |packets[i]| < 0x1_0000
    ensures ParseSizes(SizeList(packets) + rest, |packets|) == Some(Lengths(packets))
  {
    if packets != [] {
      var s := SizeList(packets) + rest;
      assert s[..2] == PutUint16(|packets[0]|);
      assert s[2..] == SizeList(packets[1..]) + rest;
      ParseSizesRoundTrip(packets[1..], rest);
    }
  }

  lemma {:induction false} CutRoundTrip(packets: seq<Packet>)
    ensures Cut(Concat(packets), Lengths(packets)) == Some(packets)
  {
    if packets != [] {
      var s := Concat(packets);
      assert s[..|packets[0]|] == packets[0];
      assert s[|packets[0]|..] == Concat(packets[1..]);
      assert Lengths(packets)[1..] == Lengths(packets[1..]);
      assert [packets[0]] + packets[1..] == packets;
      CutRoundTrip(packets[1..]);
    }
  }

  /** ParseBatch undoes the body layout of batchWrite. */
  lemma ParseRoundTrip(packets: seq<Packet>)
    requires |packets| < 0x1_0000 && forall i :: 0 <= i < |packets| ==> |packets[i]| < 0x1_0000
    ensures Parse(Body(packets)) == Some(packets)
  {
    assert |packets| % 0x1_0000 == |packets|;
    ParseSizesRoundTrip(packets, Concat(packets));
    CutRoundTrip(packets);
    ParseBody(|packets|, SizeList(packets), Concat(packets), Lengths(packets));
  }

  /** Parsing a body from its parts. */
  lemma ParseBody(n: uint16, sizes: seq<byte>, data: seq<byte>, lens: seq<nat>)
    requires |sizes| == 2 * n as int && ParseSizes(sizes + data, n) == Some(lens)
    ensures Parse(PutUint16(n) + sizes + data) == Cut(data, lens)
  {
    var body := PutUint16(n) + sizes + data;
    BodyParts(PutUint16(n), sizes, data);
    ParseHalves(body, n);
  }

  lemma BodyParts(count: seq<byte>, sizes: seq<byte>, data: seq<byte>)
    requires |count| == 2
    ensures var body := count + sizes + data;
            body[..2] == count && body[2..] == sizes + data && body[2 + |sizes|..] == data
  {
  }

  lemma {:induction false} SizesAre(s: seq<byte>, count: nat, packets: seq<Packet>)
    requires ParseSizes(s, count) == Some(Lengths(packets))
    ensures count == |packets| && 2 * count <= |s| && SizeList(packets) == s[..2 * count]
    ensures forall i :: 0 <= i < |packets| ==> |packets[i]| < 0x1_0000
  {
    if count > 0 {
      var rest := packets[1..];
      assert Lengths(packets)[1..] == Lengths(rest);
      SizesAre(s[2..], count - 1, rest);
      PutOfUint16(s[..2]);
      assert |packets[0]| == Uint16(s[..2]) && |packets[0]| % 0x1_0000 == |packets[0]|;
      assert s[..2 * count] == s[..2] + s[2..][..2 * (count - 1)];
      forall i | 0 <= i < |packets| ensures |packets[i]| < 0x1_0000 {
        if i > 0 { assert packets[i] == rest[i - 1]; }
      }
    }
  }

  lemma {:induction false} CutAre(s: seq<byte>, sizes: seq<nat>, packets: seq<Packet>)
    requires Cut(s, sizes) == Some(packets)
    ensures Lengths(packets) == sizes && Concat(packets) <= s
  {
    if sizes != [] {
      CutAre(s[sizes[0]..], sizes[1..], packets[1..]);
      assert s == s[..sizes[0]] + s[sizes[0]..];
    }
  }

  /** ParseBatch returns exactly the packets whose body the bytes begin with, and fails if there are none. */
  lemma ParseIff(s: seq<byte>, packets: seq<Packet>)
    ensures Parse(s) == Some(packets)
       <==> |packets| < 0x1_0000 && (forall p :: p in packets ==> |p| < 0x1_0000) && Body(packets) <= s
  {
    if Parse(s) == Some(packets) {
      ParsedBegins(s, packets);
    }
    if |packets| < 0x1_0000 && (forall p :: p in packets ==> |p| < 0x1_0000) && Body(packets) <= s {
      ParseRoundTrip(packets);
      ParsePrefix(Body(packets), s[|Body(packets)|..]);
      assert s == Body(packets) + s[|Body(packets)|..];
    }
  }

  lemma ParsedBegins(s: seq<byte>, packets: seq<Packet>)
    requires Parse(s) == Some(packets)
    ensures |packets| < 0x1_0000 && (forall i :: 0 <= i < |packets| ==> |packets[i]| < 0x1_0000) && Body(packets) <= s
  {
    var count: nat := Uint16(s[..2]);
    var sizes := ParseSizes(s[2..], count).value;
    ParseHalves(s, count);
    var data := s[2 + 2 * count..];
    CutAre(data, sizes, packets);
    SizesAre(s[2..], count, packets);
    PutOfUint16(s[..2]);
    assert |packets| % 0x1_0000 == count;
    BodyBegins(s, PutUint16(count), SizeList(packets), Concat(packets));
  }

  lemma BodyBegins(s: seq<byte>, count: seq<byte>, sizes: seq<byte>, data: seq<byte>)
    requires |count| == 2 && 2 + |sizes| <= |s| && s[..2] == count && s[2..][..|sizes|] == sizes
    requires data <= s[2 + |sizes|..]
    ensures count + sizes + data <= s
  {
    assert s[2..2 + |sizes|] == sizes;
    assert s == s[..2] + s[2..2 + |sizes|] + s[2 + |sizes|..];
  }

  lemma {:induction false} CutNeeds(packets: seq<Packet>, s: seq<byte>)
    requires |s| < |Concat(packets)|
    ensures Cut(s, Lengths(packets)).None?
  {
    var sizes := Lengths(packets);
    assert sizes[1..] == Lengths(packets[1..]);
    if |s| >= sizes[0] {
      CutNeeds(packets[1..], s[sizes[0]..]);
    }
  }

  /** But a body that is one byte short does not parse by itself, and does with the byte that lies behind it. */
  lemma {:induction false} StaleByte(packets: seq<Packet>)
    requires |packets| < 0x1_0000 && forall i :: 0 <= i < |packets| ==> |packets[i]| < 0x1_0000
    requires |Concat(packets)| > 0
    ensures var n := |Body(packets)| - 1;
            Parse(Body(packets)[..n]) == None && Parse(Body(packets)[..n] + [Body(packets)[n]]) == Some(packets)
  {
    var whole, data := Body(packets), Concat(packets);
    ParseRoundTrip(packets);
    Rejoin(whole);
    assert |packets| % 0x1_0000 == |packets|;
    ButLast(PutUint16(|packets|), SizeList(packets), data);
    ShortFails(packets, data[..|data| - 1]);
  }

  lemma Rejoin(s: seq<byte>)
    requires s != []
    ensures s[..|s| - 1] + [s[|s| - 1]] == s
  {
  }

  lemma ButLast(count: seq<byte>, sizes: seq<byte>, data: seq<byte>)
    requires |data| > 0
    ensures var whole := count + sizes + data;
            whole[..|whole| - 1] == count + sizes + data[..|data| - 1]
  {
  }

  lemma ShortFails(packets: seq<Packet>, short: seq<byte>)
    requires |packets| < 0x1_0000 && forall i :: 0 <= i < |packets| ==> |packets[i]| < 0x1_0000
    requires |short| < |Concat(packets)|
    ensures Parse(PutUint16(|packets|) + SizeList(packets) + short) == None
  {
    ParseSizesRoundTrip(packets, short);
    CutNeeds(packets, short);
    ParseBody(|packets|, SizeList(packets), short, Lengths(packets));
  }

  // ----- one chunk

  function DeflateBatch(o: Options, m: Message): Result<Message> {
    if o.Compressing() && |m.data| >= o.threshold then
      var innerLen := INNER_HEADER + |m.data|;
      if SharesBuffer(innerLen) then Shrink(o.compressor.value, m, MAX_FRAME - innerLen)
      else if innerLen > MAX_BODY then Err(MessageTooLarge)
      else Shrink(o.compressor.value, m, MAX_BODY - innerLen)
    else Ok(m)
  }

  function SealBatch(o: Options, m: Message, nonce: Nonce): Result<Message> {
    if o.Encrypting() then SealWithin(o, m, nonce, MAX_BODY) else Ok(m)
  }

  function WrapBody(o: Options, body: seq<byte>, nonce: Nonce): Result<Message> {
    match DeflateBatch(o, Message(BATCH, body))
    case Err(e) => Err(e)
    case Ok(cur) => SealBatch(o, cur, nonce)
  }

  function WrapChunk(o: Options, packets: seq<Packet>, nonce: Nonce): Result<Message> {
    var body := Body(packets);
    if |body| > LENGTH_GUARD then Err(MessageTooLarge)
    else if |body| > MAX_BODY then Err(SliceOutOfRange)
    else WrapBody(o, body, nonce)
  }

  function WireChunk(o: Options, packets: seq<Packet>, nonce: Nonce): Result<seq<byte>> {
    match WrapChunk(o, packets, nonce)
    case Err(e) => Err(e)
    case Ok(m) => Ok(Frame(o.magic, m))
  }

  lemma InflateUndoesDeflateBatch(o: Options, peer: Options, m: Message)
    requires o.Lawful() && o.Matches(peer) && m.typ == BATCH && DeflateBatch(o, m).Ok?
    ensures Inflate(peer, DeflateBatch(o, m).value) == Ok(m)
    ensures |DeflateBatch(o, m).value.data| <= |m.data|
    ensures DeflateBatch(o, m).value.typ != ENCRYPTED
  {
    if o.Compressing() && |m.data| >= o.threshold {
      var innerLen := INNER_HEADER + |m.data|;
      InflateUndoesShrink(peer, m, if SharesBuffer(innerLen) then MAX_FRAME - innerLen else MAX_BODY - innerLen);
    }
  }

  /** The final body fits the buffers and unwraps to the batch; with an encryptor on, it is always encrypted. */
  lemma UnwrapChunk(o: Options, peer: Options, packets: seq<Packet>, nonce: Nonce)
    requires o.Lawful() && o.Matches(peer) && WrapChunk(o, packets, nonce).Ok?
    ensures var w := WrapChunk(o, packets, nonce).value;
            && |w.data| <= MAX_BODY
            && Unwrap(peer, w) == Ok(Message(BATCH, Body(packets)))
            && (o.Encrypting() ==> w.typ == ENCRYPTED)
  {
    var m := Message(BATCH, Body(packets));
    InflateUndoesDeflateBatch(o, peer, m);
    if o.Encrypting() {
      UnsealUndoesSeal(peer, DeflateBatch(o, m).value, nonce);
    }
  }

  /** One chunk's frame fits 65535 bytes and ReadMessage takes exactly it off the stream. */
  lemma ChunkRoundTrip(o: Options, peer: Options, packets: seq<Packet>, nonce: Nonce, rest: seq<byte>)
    requires o.Lawful() && o.Matches(peer) && WireChunk(o, packets, nonce).Ok?
    ensures var f := WireChunk(o, packets, nonce).value;
            && 0 < |f| <= MAX_FRAME
            && ReadFrame(peer, f + rest) == ReadOutcome(Ok(Message(BATCH, Body(packets))), rest)
  {
    UnwrapChunk(o, peer, packets, nonce);
    ReadFrameOfFrame(peer, WrapChunk(o, packets, nonce).value, rest);
  }

  // ----- the splitter

  /** Room for packets in one chunk. Encryption really costs 43 bytes; the splitter budgets 16. */
  function Budget(o: Options): nat {
    MAX_FRAME - (HEADER + 2 + if o.Encrypting() then TAG_SIZE else 0)
  }

  /** How many leading packets the splitter takes. */
  function Take(packets: seq<Packet>, remaining: int, slots: nat): (n: nat)
    ensures n <= |packets| && n <= slots
  {
    if packets == [] || slots == 0 || remaining < 2 + |packets[0]| then 0
    else 1 + Take(packets[1..], remaining - 2 - |packets[0]|, slots - 1)
  }

  function TakeChunk(o: Options, packets: seq<Packet>): nat { Take(packets, Budget(o), MAX_BATCH) }

  /** The chunk fits the budget, and one more packet would break a limit: it is greedily maximal. */
  lemma {:induction false} TakeIsMaximal(packets: seq<Packet>, remaining: nat, slots: nat)
    ensures var n := Take(packets, remaining, slots);
            && Cost(packets[..n]) <= remaining
            && (n == |packets| || n == slots || Cost(packets[..n + 1]) > remaining)
  {
    var n := Take(packets, remaining, slots);
    if n == 0 {
      if packets != [] {
        assert packets[..1][1..] == [];
      }
    } else {
      var rest := packets[1..];
      TakeIsMaximal(rest, remaining - 2 - |packets[0]|, slots - 1);
      assert packets[..n][1..] == rest[..n - 1];
      if n < |packets| {
        assert packets[..n + 1][1..] == rest[..n];
      }
    }
  }

  /** Take is the only count with those three properties. */
  lemma {:induction false} TakeIsUnique(packets: seq<Packet>, remaining: nat, slots: nat, n: nat)
    requires n <= |packets| && n <= slots && Cost(packets[..n]) <= remaining
    requires n == |packets| || n == slots || Cost(packets[..n + 1]) > remaining
    ensures n == Take(packets, remaining, slots)
  {
    if n == 0 {
      if packets != [] {
        assert packets[..1][1..] == [];
      }
    } else {
      var rest := packets[1..];
      assert packets[..n][1..] == rest[..n - 1];
      if n < |packets| {
        assert packets[..n + 1][1..] == rest[..n];
      }
      TakeIsUnique(rest, remaining - 2 - |packets[0]|, slots - 1, n - 1);
    }
  }

  /** What the splitter guarantees of a chunk: at most 128 packets, a body of at most 65528 bytes. */
  lemma ChunkBounds(o: Options, packets: seq<Packet>)
    ensures var c := packets[..TakeChunk(o, packets)];
            && |c| <= MAX_BATCH
            && |Body(c)| <= MAX_BODY
            && (forall i :: 0 <= i < |c| ==> |c[i]| < 0x1_0000)
  {
    TakeIsMaximal(packets, Budget(o), MAX_BATCH);
    var c := packets[..TakeChunk(o, packets)];
    CostIs(c);
    forall i | 0 <= i < |c| ensures |c[i]| < 0x1_0000 {
      PacketWithinCost(c, i);
    }
  }

  /**
    Exactly which chunks go out. The 65530 guard is dead; a chunk handed to zstd survives only up
    to 32756 bytes, because the second compression target is always too small; an encrypted chunk
    survives only up to a final body of 65485 bytes, although the splitter lets 65512 through.
   */
  lemma ChunkDomain(o: Options, packets: seq<Packet>, nonce: Nonce)
    requires o.Lawful()
    ensures var c := packets[..TakeChunk(o, packets)];
            var m := Message(BATCH, Body(c));
            && (DeflateBatch(o, m).Ok? <==> (o.Compressing() && |m.data| >= o.threshold ==> |m.data| <= 32756))
            && (WireChunk(o, c, nonce).Ok? <==>
                  DeflateBatch(o, m).Ok? && (o.Encrypting() ==> |DeflateBatch(o, m).value.data| <= 65485))
  {
    var c := packets[..TakeChunk(o, packets)];
    ChunkBounds(o, packets);
    var m := Message(BATCH, Body(c));
    if o.Compressing() {
      assert |o.compressor.value.encode(Inner(m))| > 0;
    }
  }

  /** For example, the splitter accepts a packet of 65496 bytes that encryption then refuses. */
  lemma RefusedPacket(o: Options, p: Packet, nonce: Nonce)
    requires o.Lawful() && o.Encrypting() && !o.Compressing() && |p| == 65496
    ensures TakeChunk(o, [p]) == 1 && WireChunk(o, [p], nonce) == Err(MessageTooLarge)
  {
    assert [p][1..] == [];
    CostIs([p]);
    assert Cost([p]) == 2 + |p|;
  }

  // ----- BatchWrite

  type Nonces = nat -> Nonce

  /** Why BatchWrite stopped: all sent, the next packet fits no chunk, or a chunk failed. */
  datatype Stop = Done | Unsplittable | Failed(error: Error)

  /** Outcome of BatchWrite: the frames sent and why it stopped. */
  datatype BatchOutcome = BatchOutcome(frames: seq<seq<byte>>, stop: Stop) {
    function Error(): Option<Error> {
      match stop
      case Done => None
      case Unsplittable => Some(MessageTooLarge)
      case Failed(e) => Some(e)
    }

    /** The count returned: all bytes on success; otherwise the last frame's, or nothing. */
    function Count(): nat {
      match stop
      case Done => TotalLen(frames)
      case Unsplittable => LastLen(frames)
      case Failed(_) => 0
    }
  }

  function LastLen(frames: seq<seq<byte>>): nat {
    if frames == [] then 0 else |frames[|frames| - 1]|
  }

  /** What becomes of a chunk, as a function of the chunk and of its number. */
  type Writer = (seq<Packet>, nat) -> Result<seq<byte>>

  function ChunkWriter(o: Options, nonces: Nonces): Writer {
    (packets: seq<Packet>, k: nat) => WireChunk(o, packets, nonces(k))
  }

  /** BatchWrite from chunk `k` on. */
  function BatchFrom(o: Options, packets: seq<Packet>, write: Writer, k: nat): BatchOutcome
    decreases |packets|
  {
    if packets == [] then BatchOutcome([], Done)
    else
      var c := TakeChunk(o, packets);
      if c == 0 then BatchOutcome([], Unsplittable)
      else match write(packets[..c], k)
        case Err(e) => BatchOutcome([], Failed(e))
        case Ok(f) => After([f], BatchFrom(o, packets[c..], write, k + 1))
  }

  /** The outcome of a call that has sent `sent` and has `rest` still to come. */
  function After(sent: seq<seq<byte>>, rest: BatchOutcome): (r: BatchOutcome)
    ensures rest.frames == [] ==> r.frames == sent
    ensures sent == [] ==> r == rest
  {
    BatchOutcome(sent + rest.frames, rest.stop)
  }

  /** One round of BatchWrite's loop, over positions in the whole list. */
  lemma BatchStep(o: Options, packets: seq<Packet>, start: nat, end: nat, write: Writer, k: nat, sent: seq<seq<byte>>)
    requires start < end <= |packets| && end - start == TakeChunk(o, packets[start..])
    ensures var f := write(packets[start..end], k);
            After(sent, BatchFrom(o, packets[start..], write, k))
            == if f.Err? then BatchOutcome(sent, Failed(f.error))
               else After(sent + [f.value], BatchFrom(o, packets[end..], write, k + 1))
  {
    assert packets[start..][..end - start] == packets[start..end];
    assert packets[start..][end - start..] == packets[end..];
    var f := write(packets[start..end], k);
    if f.Ok? {
      var rest := BatchFrom(o, packets[end..], write, k + 1);
      assert sent + ([f.value] + rest.frames) == sent + [f.value] + rest.frames;
    }
  }

  /** What a round of BatchWrite's loop from `start` to `end` means for the outcome of the call. */
  ghost predicate Progress(o: Options, packets: seq<Packet>, write: Writer, k: nat, sent: seq<seq<byte>>,
                           start: nat, end: nat, r: Result<nat>, f: seq<byte>, k': nat)
  {
    && start <= end <= |packets|
    && var whole := After(sent, BatchFrom(o, packets[start..], write, k));
       if end == start then whole == BatchOutcome(sent, Unsplittable)
       else if r.Err? then whole == BatchOutcome(sent, Failed(r.error))
       else whole == After(sent + [f], BatchFrom(o, packets[end..], write, k')) && |f| == r.value
  }

  lemma RoundProgresses(o: Options, packets: seq<Packet>, write: Writer, k: nat, sent: seq<seq<byte>>,
                        start: nat, end: nat, r: Result<nat>, f: seq<byte>)
    requires start < |packets| && start <= end <= |packets| && end - start == TakeChunk(o, packets[start..])
    requires end > start ==>
               var w := write(packets[start..end], k);
               if w.Err? then r == Err(w.error) else r == Ok(|w.value|) && f == w.value
    ensures Progress(o, packets, write, k, sent, start, end, r, f, k + 1)
  {
    if start < end { BatchStep(o, packets, start, end, write, k, sent); }
  }

  function WireBatch(o: Options, packets: seq<Packet>, nonces: Nonces, k: nat): BatchOutcome {
    BatchFrom(o, packets, ChunkWriter(o, nonces), k)
  }

  /** The chunks the splitter makes. */
  function Chunks(o: Options, packets: seq<Packet>): seq<seq<Packet>>
    decreases |packets|
  {
    var c := TakeChunk(o, packets);
    if packets == [] || c == 0 then [] else [packets[..c]] + Chunks(o, packets[c..])
  }

  function ChunkMessages(chunks: seq<seq<Packet>>): (r: seq<Message>)
    ensures |r| == |chunks| && forall i :: 0 <= i < |r| ==> r[i] == Message(BATCH, Body(chunks[i]))
  {
    if chunks == [] then [] else [Message(BATCH, Body(chunks[0]))] + ChunkMessages(chunks[1..])
  }

  /** Repeated ReadMessage until the stream is used up; `None` when some call fails. */
  function ReadAll(o: Options, s: seq<byte>): Option<seq<Message>>
    decreases |s|
  {
    if s == [] then Some([])
    else
      var r := ReadFrame(o, s);
      if r.result.Err? then None
      else match ReadAll(o, r.rest)
        case None => None
        case Some(ms) => Some([r.result.value] + ms)
  }

  /** ParseBatch on every message, concatenated. */
  function ParseAll(ms: seq<Message>): Option<seq<Packet>> {
    if ms == [] then Some([])
    else match Parse(ms[0].data)
      case None => None
      case Some(packets) => match ParseAll(ms[1..])
        case None => None
        case Some(more) => Some(packets + more)
  }

  /** Whatever follows it in the stream, one ReadMessage turns exactly the bytes `f` into `m`. */
  ghost predicate Delimits(o: Options, f: seq<byte>, m: Message) {
    f != [] && forall rest :: ReadFrame(o, f + rest) == ReadOutcome(Ok(m), rest)
  }

  ghost predicate DelimitsAll(o: Options, frames: seq<seq<byte>>, ms: seq<Message>) {
    |frames| == |ms| && forall i :: 0 <= i < |frames| ==> Delimits(o, frames[i], ms[i])
  }

  /** Self-delimiting frames can be read one after the other until nothing is left. */
  lemma {:induction false} ReadFrames(o: Options, frames: seq<seq<byte>>, ms: seq<Message>)
    requires DelimitsAll(o, frames, ms)
    ensures ReadAll(o, Concat(frames)) == Some(ms)
  {
    if frames != [] {
      ReadFrames(o, frames[1..], ms[1..]);
      assert Delimits(o, frames[0], ms[0]);
      assert [ms[0]] + ms[1..] == ms;
    }
  }

  /** Every frame the writer makes is read back as its chunk. */
  ghost predicate Faithful(peer: Options, write: Writer) {
    forall c, k :: write(c, k).Ok? ==> Delimits(peer, write(c, k).value, Message(BATCH, Body(c)))
  }

  lemma ChunkWriterIsFaithful(o: Options, peer: Options, nonces: Nonces)
    requires o.Lawful() && o.Matches(peer)
    ensures Faithful(peer, ChunkWriter(o, nonces))
  {
    forall c, k | ChunkWriter(o, nonces)(c, k).Ok?
      ensures Delimits(peer, ChunkWriter(o, nonces)(c, k).value, Message(BATCH, Body(c)))
    {
      ChunkRoundTrip(o, peer, c, nonces(k), []);
      forall rest {
        ChunkRoundTrip(o, peer, c, nonces(k), rest);
      }
    }
  }

  /** The frames of a successful BatchWrite are its chunks', in order. */
  lemma {:induction false} BatchFrames(o: Options, packets: seq<Packet>, write: Writer, k: nat)
    requires BatchFrom(o, packets, write, k).stop.Done?
    ensures var r := BatchFrom(o, packets, write, k);
            && |r.frames| == |Chunks(o, packets)|
            && forall i :: 0 <= i < |r.frames| ==> write(Chunks(o, packets)[i], k + i) == Ok(r.frames[i])
    decreases |packets|
  {
    if packets != [] {
      var c := TakeChunk(o, packets);
      var f := write(packets[..c], k).value;
      var tail := BatchFrom(o, packets[c..], write, k + 1);
      BatchFrames(o, packets[c..], write, k + 1);
      forall i | 0 < i <= |tail.frames|
        ensures write(Chunks(o, packets)[i], k + i) == Ok(([f] + tail.frames)[i])
      {
        assert write(Chunks(o, packets[c..])[i - 1], k + 1 + (i - 1)) == Ok(tail.frames[i - 1]);
      }
    }
  }

  /** A frame that fits the buffer, and is not plain if an encryptor is on. */
  predicate Wrapped(o: Options, f: seq<byte>) {
    HEADER <= |f| <= MAX_FRAME && (o.Encrypting() ==> f[4] == ENCRYPTED)
  }

  lemma ChunkIsWrapped(o: Options, packets: seq<Packet>, nonce: Nonce)
    requires o.Lawful() && WireChunk(o, packets, nonce).Ok?
    ensures Wrapped(o, WireChunk(o, packets, nonce).value)
  {
    UnwrapChunk(o, o, packets, nonce);
  }

  /** So is every frame sent, even by a call that fails later. */
  lemma {:induction false} BatchIsWrapped(o: Options, packets: seq<Packet>, nonces: Nonces, k: nat)
    requires o.Lawful()
    ensures forall f :: f in WireBatch(o, packets, nonces, k).frames ==> Wrapped(o, f)
    decreases |packets|
  {
    var c := TakeChunk(o, packets);
    if packets != [] && c > 0 && WireChunk(o, packets[..c], nonces(k)).Ok? {
      ChunkIsWrapped(o, packets[..c], nonces(k));
      BatchIsWrapped(o, packets[c..], nonces, k + 1);
    }
  }

  /** Chunks have at most 128 packets, all of them packets of the list. */
  lemma {:induction false} ChunksBounded(o: Options, packets: seq<Packet>)
    ensures forall c :: c in Chunks(o, packets) ==>
              |c| <= MAX_BATCH && |Body(c)| <= MAX_BODY && forall p :: p in c ==> p in packets
    decreases |packets|
  {
    var c := TakeChunk(o, packets);
    if packets != [] && c > 0 {
      ChunkBounds(o, packets);
      ChunksBounded(o, packets[c..]);
    }
  }

  lemma BatchDelimits(o: Options, peer: Options, packets: seq<Packet>, nonces: Nonces, k: nat)
    requires o.Lawful() && o.Matches(peer)
    requires WireBatch(o, packets, nonces, k).stop.Done?
    ensures DelimitsAll(peer, WireBatch(o, packets, nonces, k).frames, ChunkMessages(Chunks(o, packets)))
  {
    var write := ChunkWriter(o, nonces);
    ChunkWriterIsFaithful(o, peer, nonces);
    BatchFrames(o, packets, write, k);
    var frames := WireBatch(o, packets, nonces, k).frames;
    var chunks := Chunks(o, packets);
    forall i | 0 <= i < |frames| ensures Delimits(peer, frames[i], ChunkMessages(chunks)[i]) {
      assert write(chunks[i], k + i) == Ok(frames[i]);
    }
  }

  /** The chunks of a successful BatchWrite are the packet list cut into pieces that ParseBatch can read. */
  lemma {:induction false} ChunksCover(o: Options, packets: seq<Packet>, write: Writer, k: nat)
    requires BatchFrom(o, packets, write, k).stop.Done?
    ensures Concat(Chunks(o, packets)) == packets
    ensures forall c :: c in Chunks(o, packets) ==> Parse(Body(c)) == Some(c)
    decreases |packets|
  {
    if packets != [] {
      var c := TakeChunk(o, packets);
      ChunksCover(o, packets[c..], write, k + 1);
      ChunkBounds(o, packets);
      ParseRoundTrip(packets[..c]);
      assert packets[..c] + packets[c..] == packets;
    }
  }

  lemma {:induction false} ParseChunks(chunks: seq<seq<Packet>>)
    requires forall c :: c in chunks ==> Parse(Body(c)) == Some(c)
    ensures ParseAll(ChunkMessages(chunks)) == Some(Concat(chunks))
  {
    if chunks != [] {
      ParseChunks(chunks[1..]);
      assert ChunkMessages(chunks)[1..] == ChunkMessages(chunks[1..]);
    }
  }

  /** A successful BatchWrite reads back as the original packets, in order; it returns the byte count. */
  lemma {:induction false} BatchRoundTrip(o: Options, peer: Options, packets: seq<Packet>, nonces: Nonces, k: nat)
    requires o.Lawful() && o.Matches(peer)
    requires WireBatch(o, packets, nonces, k).stop.Done?
    ensures var r := WireBatch(o, packets, nonces, k);
            var ms := ChunkMessages(Chunks(o, packets));
            && r.Count() == |Concat(r.frames)|
            && ReadAll(peer, Concat(r.frames)) == Some(ms)
            && ParseAll(ms) == Some(packets)
  {
    ConcatLen(WireBatch(o, packets, nonces, k).frames);
    BatchDelimits(o, peer, packets, nonces, k);
    ReadFrames(peer, WireBatch(o, packets, nonces, k).frames, ChunkMessages(Chunks(o, packets)));
    ChunksCover(o, packets, ChunkWriter(o, nonces), k);
    ParseChunks(Chunks(o, packets));
  }

  // ----- whole streams

  datatype Call = Send(m: Message, nonce: Nonce) | SendBatch(packets: seq<Packet>, nonces: Nonces)

  predicate Succeeds(o: Options, c: Call) {
    match c
    case Send(m, nonce) => m.typ != COMPRESSED && m.typ != ENCRYPTED && WireMessage(o, m, nonce).Ok?
    case SendBatch(packets, nonces) => WireBatch(o, packets, nonces, 0).stop.Done?
  }

  function FramesOf(o: Options, c: Call): seq<seq<byte>>
    requires Succeeds(o, c)
  {
    match c
    case Send(m, nonce) => [WireMessage(o, m, nonce).value]
    case SendBatch(packets, nonces) => WireBatch(o, packets, nonces, 0).frames
  }

  function MessagesOf(o: Options, c: Call): seq<Message> {
    match c
    case Send(m, _) => [m]
    case SendBatch(packets, _) => ChunkMessages(Chunks(o, packets))
  }

  function Sent(o: Options, calls: seq<Call>): seq<seq<byte>>
    requires forall c :: c in calls ==> Succeeds(o, c)
  {
    if calls == [] then [] else FramesOf(o, calls[0]) + Sent(o, calls[1..])
  }

  function Messages(o: Options, calls: seq<Call>): seq<Message> {
    if calls == [] then [] else MessagesOf(o, calls[0]) + Messages(o, calls[1..])
  }

  lemma CallDelimits(o: Options, peer: Options, c: Call)
    requires o.Lawful() && o.Matches(peer) && Succeeds(o, c)
    ensures DelimitsAll(peer, FramesOf(o, c), MessagesOf(o, c))
  {
    match c
    case Send(m, nonce) =>
      forall rest ensures ReadFrame(peer, WireMessage(o, m, nonce).value + rest) == ReadOutcome(Ok(m), rest) {
        MessageRoundTrip(o, peer, m, nonce, rest);
      }
    case SendBatch(packets, nonces) =>
      BatchDelimits(o, peer, packets, nonces, 0);
  }

  lemma {:induction false} CallsDelimit(o: Options, peer: Options, calls: seq<Call>)
    requires o.Lawful() && o.Matches(peer)
    requires forall c :: c in calls ==> Succeeds(o, c)
    ensures DelimitsAll(peer, Sent(o, calls), Messages(o, calls))
  {
    if calls != [] {
      CallDelimits(o, peer, calls[0]);
      CallsDelimit(o, peer, calls[1..]);
    }
  }

  /** Any mix of successful WriteMessage and BatchWrite calls is read back frame by frame, nothing left over. */
  lemma {:induction false} StreamRoundTrip(o: Options, peer: Options, calls: seq<Call>)
    requires o.Lawful() && o.Matches(peer)
    requires forall c :: c in calls ==> Succeeds(o, c)
    ensures ReadAll(peer, Concat(Sent(o, calls))) == Some(Messages(o, calls))
  {
    CallsDelimit(o, peer, calls);
    ReadFrames(peer, Sent(o, calls), Messages(o, calls));
  }

  // ----- what goes over the wire

  /** A batch body byte by byte: the count, the sizes, the packets. */
  lemma BodyBytes(packets: seq<Packet>, i: nat)
    requires |packets| <= 65535 && i < |packets| && |packets[i]| <= 65535
    ensures var b, n := Body(packets), |packets|;
            && |b| == 2 + 2 * n + |Concat(packets)| && b[0] * 0x100 + b[1] as int == n
            && b[2 + 2 * i] * 0x100 + b[3 + 2 * i] as int == |packets[i]|
            && b[2 + 2 * n..] == Concat(packets)
  {
    SizeBytes(packets, i);
    PartBytes(|packets|, SizeList(packets), Concat(packets), i, |packets[i]|);
  }

  lemma PartBytes(n: uint16, sizes: seq<byte>, data: seq<byte>, i: nat, size: uint16)
    requires i < n && |sizes| == 2 * n as int && sizes[2 * i] * 0x100 + sizes[2 * i + 1] as int == size
    ensures var b := PutUint16(n % 0x1_0000) + sizes + data;
            && |b| == 2 + 2 * n as int + |data| && b[0] * 0x100 + b[1] as int == n
            && b[2 + 2 * i] * 0x100 + b[3 + 2 * i] as int == size
            && b[2 + 2 * n..] == data
  {
    var count := PutUint16(n);
    assert n % 0x1_0000 == n;
    BigEndian(n, 0);
    BodyParts(count, sizes, data);
    BodyAt(count, sizes, data, 2 * i);
    BodyAt(count, sizes, data, 2 * i + 1);
  }

  lemma BodyAt(count: seq<byte>, sizes: seq<byte>, data: seq<byte>, k: nat)
    requires |count| == 2 && k < |sizes|
    ensures var b := count + sizes + data;
            b[0] == count[0] && b[1] == count[1] && b[2 + k] == sizes[k]
  {
  }

  lemma {:induction false} SizeBytes(packets: seq<Packet>, i: nat)
    requires i < |packets| && |packets[i]| <= 65535
    ensures SizeList(packets)[2 * i] * 0x100 + SizeList(packets)[2 * i + 1] as int == |packets[i]|
  {
    if i == 0 {
      assert |packets[0]| % 0x1_0000 == |packets[0]|;
      BigEndian(|packets[0]|, 0);
    } else {
      SizeBytes(packets[1..], i - 1);
      assert SizeList(packets)[2 * i] == SizeList(packets[1..])[2 * (i - 1)];
      assert SizeList(packets)[2 * i + 1] == SizeList(packets[1..])[2 * (i - 1) + 1];
    }
  }

  /** A batch that is sent compressed. */
  predicate SmallerBatch(o: Options, body: seq<byte>) {
    && o.compress && o.compressor.Some? && |body| >= o.threshold
    && |o.compressor.value.encode(Inner(Message(0x01, body)))| < |body|
  }

  function SqueezedBatch(o: Options, body: seq<byte>): Message {
    if SmallerBatch(o, body) then Message(0x10, o.compressor.value.encode(Inner(Message(0x01, body))))
    else Message(0x01, body)
  }

  lemma DeflateBatchIs(o: Options, body: seq<byte>)
    requires o.Lawful() && DeflateBatch(o, Message(BATCH, body)).Ok?
    ensures DeflateBatch(o, Message(BATCH, body)).value == SqueezedBatch(o, body)
  {
    if o.Compressing() { assert |o.compressor.value.encode(Inner(Message(BATCH, body)))| > 0; }
  }

  /** Every frame of a chunk, from the options and the packets alone. */
  lemma ChunkForm(o: Options, packets: seq<Packet>, nonce: Nonce)
    requires o.Lawful() && WireChunk(o, packets, nonce).Ok?
    ensures var f, cur := WireChunk(o, packets, nonce).value, SqueezedBatch(o, Body(packets));
            && 7 <= |f| <= 65535 && f[..4] == o.magic && f[5] * 0x100 + f[6] as int == |f| - 7
            && (if o.encrypt && o.encryptor.Some?
                then f[4] == 0x11 && f[7..] == nonce + o.encryptor.value.seal(nonce, Inner(cur))
                else f[4] == cur.typ && f[7..] == cur.data)
  {
    DeflateBatchIs(o, Body(packets));
    UnwrapChunk(o, o, packets, nonce);
    FrameBytes(o.magic, WrapChunk(o, packets, nonce).value);
  }

  // ----- when BatchWrite succeeds

  /** What packets and their sizes may take up in one chunk. */
  function Room(o: Options): nat { if o.encrypt && o.encryptor.Some? then 65510 else 65526 }

  /** The first chunk takes as many packets as fit, up to 128. */
  lemma FirstChunk(o: Options, packets: seq<Packet>)
    ensures var n := TakeChunk(o, packets);
            && n <= |packets| && n <= 128 && Cost(packets[..n]) <= Room(o)
            && (n == |packets| || n == 128 || Cost(packets[..n + 1]) > Room(o))
            && (n == 0 <==> packets == [] || 2 + |packets[0]| > Room(o))
  {
    TakeIsMaximal(packets, Budget(o), MAX_BATCH);
  }

  /** Packets that fit one chunk are one chunk. */
  lemma OneChunk(o: Options, packets: seq<Packet>)
    requires 0 < |packets| <= 128 && Cost(packets) <= Room(o)
    ensures Chunks(o, packets) == [packets]
  {
    assert packets[..|packets|] == packets;
    TakeIsUnique(packets, Budget(o), MAX_BATCH, |packets|);
    assert packets[|packets|..] == [];
  }

  /** Whether a chunk goes out, in numbers. */
  predicate Goes(o: Options, chunk: seq<Packet>) {
    var body := Body(chunk);
    && (o.compress && o.compressor.Some? && |body| >= o.threshold ==> |body| <= 32756)
    && (o.encrypt && o.encryptor.Some? ==> |SqueezedBatch(o, body).data| <= 65485)
  }

  lemma GoesIff(o: Options, packets: seq<Packet>, nonce: Nonce)
    requires o.Lawful()
    ensures var c := packets[..TakeChunk(o, packets)];
            WireChunk(o, c, nonce).Ok? <==> Goes(o, c)
  {
    var c := packets[..TakeChunk(o, packets)];
    ChunkDomain(o, packets, nonce);
    if DeflateBatch(o, Message(BATCH, Body(c))).Ok? { DeflateBatchIs(o, Body(c)); }
  }

  /** BatchWrite succeeds exactly if no packet is too large for a chunk and every chunk goes out. */
  lemma {:induction false} BatchDoneIff(o: Options, packets: seq<Packet>, nonces: Nonces, k: nat)
    requires o.Lawful()
    ensures WireBatch(o, packets, nonces, k).stop.Done?
       <==> (forall p :: p in packets ==> 2 + |p| <= Room(o)) && forall c :: c in Chunks(o, packets) ==> Goes(o, c)
    decreases |packets|
  {
    if packets != [] {
      var n := TakeChunk(o, packets);
      FirstChunk(o, packets);
      if n == 0 {
        assert packets[0] in packets;
      } else {
        var first, rest := packets[..n], packets[n..];
        GoesIff(o, packets, nonces(k));
        BatchDoneIff(o, rest, nonces, k + 1);
        SmallPackets(first, Room(o));
        assert packets == first + rest;
        assert Chunks(o, packets) == [first] + Chunks(o, rest);
        assert forall c :: c in Chunks(o, packets) <==> c == first || c in Chunks(o, rest);
      }
    }
  }

  lemma SmallPackets(packets: seq<Packet>, room: nat)
    requires Cost(packets) <= room
    ensures forall p :: p in packets ==> 2 + |p| <= room
  {
    forall p | p in packets ensures 2 + |p| <= room {
      var i :| 0 <= i < |packets| && packets[i] == p;
      PacketWithinCost(packets, i);
    }
  }

  /** Without layers, exactly if no packet has more than 65524 bytes; */
  lemma PlainBatchIff(o: Options, packets: seq<Packet>, nonces: Nonces, k: nat)
    requires o.Lawful() && !o.Encrypting() && !o.Compressing()
    ensures WireBatch(o, packets, nonces, k).stop.Done? <==> forall p :: p in packets ==> |p| <= 65524
  {
    BatchDoneIff(o, packets, nonces, k);
  }

  /** with an encryptor alone, exactly if none has more than 65508 and no chunk has a body of more than 65485. */
  lemma SealedBatchIff(o: Options, packets: seq<Packet>, nonces: Nonces, k: nat)
    requires o.Lawful() && o.Encrypting() && !o.Compressing()
    ensures WireBatch(o, packets, nonces, k).stop.Done?
       <==> (forall p :: p in packets ==> |p| <= 65508) && forall c :: c in Chunks(o, packets) ==> |Body(c)| <= 65485
  {
    BatchDoneIff(o, packets, nonces, k);
  }

  /** A batch that fits one chunk is sent as one frame, whose length is the count returned. */
  lemma OneFrame(o: Options, packets: seq<Packet>, nonces: Nonces, k: nat)
    requires o.Lawful() && 0 < |packets| <= 128 && Cost(packets) <= Room(o) && Goes(o, packets)
    ensures var r, w := WireBatch(o, packets, nonces, k), WireChunk(o, packets, nonces(k));
            w.Ok? && r == BatchOutcome([w.value], Done) && r.Count() == |w.value| && r.Error() == None
  {
    OneChunk(o, packets);
    SmallPackets(packets, Room(o));
    BatchDoneIff(o, packets, nonces, k);
    BatchFrames(o, packets, ChunkWriter(o, nonces), k);
    var r := WireBatch(o, packets, nonces, k);
    assert Chunks(o, packets)[0] == packets;
    var w := WireChunk(o, packets, nonces(k)).value;
    assert r.frames == [w];
    TotalLenSnoc([], w);
    assert [] + [w] == [w];
  }

  /** What a call that stops early returns: the last frame's length if a packet fits no chunk, else nothing. */
  lemma ErrorCounts(r: BatchOutcome)
    ensures r.stop.Unsplittable? ==>
              && r.Error() == Some(MessageTooLarge)
              && r.Count() == if r.frames == [] then 0 else |r.frames[|r.frames| - 1]|
    ensures r.stop.Failed? ==> r.Error() == Some(r.stop.error) && r.Count() == 0
  {
  }
}
