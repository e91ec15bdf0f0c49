/** Two transports joined by a byte stream: what one writes in place, the other reads in place. */
module Link {
  import opened Bytes
  import opened Codec
  import opened Wire
  import opened Batch
  import opened Slices
  import T = Transport

  /** Two ends with separate buffers, the same magic and the same layers. */
  ghost predicate Joined(a: T.Transport, b: T.Transport) {
    && a != b && a.Valid() && b.Valid() && a.o.Matches(b.o)
    && a.Foreign(b.buffer) && a.Foreign(b.cryptoBuffer)
  }

  /** An array that neither end uses. */
  ghost predicate Outside(x: array<byte>, a: T.Transport, b: T.Transport) { a.Foreign(x) && b.Foreign(x) }

  /** One message from end to end. Without layers it gets through exactly up to 65528 bytes. */
  method Relay(a: T.Transport, b: T.Transport, typ: byte, data: Slice, target: array<byte>)
    returns (sent: Result<nat>, got: Result<(byte, nat)>)
    requires Joined(a, b) && Outside(data.arr, a, b) && Outside(target, a, b) && data.arr != target
    requires data.InRange() && data.len <= target.Length
    requires typ != COMPRESSED && typ != ENCRYPTED && a.outgoing == []
    modifies a, b, a.buffer, a.cryptoBuffer, b.buffer, b.cryptoBuffer, target
    ensures sent.Ok? ==>
              got == Ok((typ, data.len)) && target[..data.len] == old(data.Content()) && b.incoming == []
    ensures sent.Ok? <==> WireMessage(a.o, Message(typ, old(data.Content())), a.nonces(old(a.drawn))).Ok?
    ensures !a.o.Encrypting() && !a.o.Compressing() ==> (sent.Ok? <==> data.len <= 65528)
  {
    ghost var content := data.Content();
    ghost var nonce := a.nonces(a.drawn);
    WriteDomain(a.o, Message(typ, content), nonce);
    sent := a.WriteMessage(typ, data);
    got := Err(UnexpectedEof);
    if sent.Ok? {
      b.incoming := a.outgoing;
      ghost var m := Message(typ, content);
      assert ReadFrame(b.o, a.outgoing) == ReadOutcome(Ok(m), []) by {
        MessageRoundTrip(a.o, b.o, m, nonce, []);
        assert a.outgoing == WireMessage(a.o, m, nonce).value + [];
      }
      got := b.ReadMessage(target);
    }
  }

  /** A receiver's rows: distinct, outside the transport, 128 or more, and long enough for every packet. */
  ghost predicate Receives(rows: seq<array<byte>>, lens: array<int>, packets: seq<Packet>, b: T.Transport) {
    && MAX_BATCH <= |rows| && MAX_BATCH <= lens.Length
    && (forall i, j :: 0 <= i < j < |rows| ==> rows[i] != rows[j])
    && (forall i :: 0 <= i < |rows| ==> rows[i] as object != lens && b.Foreign(rows[i]))
    && (forall i, p :: 0 <= i < |rows| && p in packets ==> |p| <= rows[i].Length)
  }

  /** What ParseBatch left in the rows. */
  method Collect(rows: seq<array<byte>>, lens: array<int>, n: nat, ghost packets: seq<Packet>) returns (r: seq<Packet>)
    requires n == |packets| <= |rows| && n <= lens.Length && T.Transport.PlacedAll(rows, 0, packets)
    requires forall i :: 0 <= i < n ==> lens[i] == |packets[i]|
    ensures r == packets
  {
    r := [];
    for i := 0 to n
      invariant r == packets[..i]
    {
      assert T.Transport.Placed(rows[i], 0, packets[i]);
      r := r + [rows[i][0..lens[i]]];
    }
  }

  /** A chunk of the packet list that ParseBatch can read back. */
  ghost predicate Sound(chunk: seq<Packet>, packets: seq<Packet>) {
    && Parse(Body(chunk)) == Some(chunk) && |chunk| <= MAX_BATCH && |Body(chunk)| <= MAX_BODY
    && forall p :: p in chunk ==> p in packets
  }

  /** The frames carry these chunks, one each. */
  ghost predicate Carry(o: Options, frames: seq<seq<byte>>, chunks: seq<seq<Packet>>, packets: seq<Packet>) {
    && |frames| == |chunks|
    && forall i :: 0 <= i < |frames| ==>
         Delimits(o, frames[i], Message(BATCH, Body(chunks[i]))) && Sound(chunks[i], packets)
  }

  lemma BatchCarries(o: Options, peer: Options, packets: seq<Packet>, nonces: Nonces, k: nat)
    requires o.Lawful() && o.Matches(peer) && WireBatch(o, packets, nonces, k).stop.Done?
    ensures Carry(peer, WireBatch(o, packets, nonces, k).frames, Chunks(o, packets), packets)
    ensures Concat(Chunks(o, packets)) == packets
  {
    BatchDelimits(o, peer, packets, nonces, k);
    ChunksCover(o, packets, ChunkWriter(o, nonces), k);
    ChunksBounded(o, packets);
    var chunks := Chunks(o, packets);
    forall i | 0 <= i < |chunks| ensures Sound(chunks[i], packets) {
      assert chunks[i] in chunks;
    }
  }

  lemma FramesLeft(o: Options, frames: seq<seq<byte>>, chunks: seq<seq<Packet>>, packets: seq<Packet>, k: nat)
    requires Carry(o, frames, chunks, packets) && k <= |frames|
    ensures Concat(frames[k..]) == [] <==> k == |frames|
  {
    if k < |frames| {
      assert Delimits(o, frames[k], Message(BATCH, Body(chunks[k])));
    }
  }

  /** One ReadMessage and one ParseBatch, on a stream that starts with the frame of a chunk. */
  method ReadChunk(b: T.Transport, rows: seq<array<byte>>, lens: array<int>, target: array<byte>,
                   ghost packets: seq<Packet>, ghost chunk: seq<Packet>, ghost f: seq<byte>, ghost rest: seq<byte>)
    returns (r: seq<Packet>)
    requires b.Valid() && b.incoming == f + rest && Delimits(b.o, f, Message(BATCH, Body(chunk)))
    requires Receives(rows, lens, packets, b) && Sound(chunk, packets) && b.Foreign(target) && MAX_BODY <= target.Length
    modifies b`incoming, b.buffer, b.cryptoBuffer, target, rows, lens
    ensures r == chunk && b.incoming == rest
  {
    var got := b.ReadMessage(target);
    var n := got.value.1;
    assert target[..] == Body(chunk) + target[n..] by { assert target[..n] == Body(chunk); }
    ParsePrefix(Body(chunk), target[n..]);
    // the caller passes target[:n], whose capacity is that of target
    var parsed := T.Transport.ParseBatch(target[..], rows, lens, 0);
    r := Collect(rows, lens, parsed.value, chunk);
  }

  /** ReadMessage and ParseBatch until the stream is empty. */
  method ReadChunks(b: T.Transport, rows: seq<array<byte>>, lens: array<int>, target: array<byte>,
                    ghost packets: seq<Packet>, ghost chunks: seq<seq<Packet>>, ghost frames: seq<seq<byte>>)
    returns (got: seq<Packet>)
    requires b.Valid() && b.incoming == Concat(frames) && Carry(b.o, frames, chunks, packets)
    requires Receives(rows, lens, packets, b) && b.Foreign(target) && MAX_BODY <= target.Length
    modifies b`incoming, b.buffer, b.cryptoBuffer, target, rows, lens
    ensures got == Concat(chunks) && b.incoming == []
  {
    got := [];
    ghost var k := 0;
    assert frames[0..] == frames;
    while b.incoming != []
      invariant k <= |frames| && b.incoming == Concat(frames[k..]) && got == Concat(chunks[..k])
      decreases |frames| - k
    {
      assert Delimits(b.o, frames[k], Message(BATCH, Body(chunks[k])));
      ConcatTake(chunks, k);
      var more := ReadChunk(b, rows, lens, target, packets, chunks[k], frames[k], Concat(frames[k + 1..]));
      got := got + more;
      k := k + 1;
    }
    FramesLeft(b.o, frames, chunks, packets, k);
    assert chunks[..k] == chunks;
  }

  /** A batch from end to end. Without layers it gets through exactly if no packet has more than 65524 bytes. */
  method RelayBatch(a: T.Transport, b: T.Transport, buf: seq<array<byte>>, sizes: seq<nat>, headerSize: nat,
                    rows: seq<array<byte>>, lens: array<int>, target: array<byte>, ghost packets: seq<Packet>)
    returns (err: Option<Error>, got: seq<Packet>)
    requires Joined(a, b) && a.Gives(buf, sizes, headerSize, packets) && a.outgoing == []
    requires Receives(rows, lens, packets, b) && b.Foreign(target) && MAX_BODY <= target.Length
    modifies a, b, a.buffer, a.cryptoBuffer, b.buffer, b.cryptoBuffer, target, rows, lens
    ensures err.None? ==> got == packets && b.incoming == []
    ensures err.None? <==> WireBatch(a.o, packets, a.nonces, old(a.drawn)).stop.Done?
    ensures !a.o.Encrypting() && !a.o.Compressing() ==> (err.None? <==> forall p :: p in packets ==> |p| <= 65524)
  {
    if !a.o.Encrypting() && !a.o.Compressing() { PlainBatchIff(a.o, packets, a.nonces, a.drawn); }
    ghost var outcome := WireBatch(a.o, packets, a.nonces, a.drawn);
    ghost var chunks := Chunks(a.o, packets);
    if outcome.stop.Done? { BatchCarries(a.o, b.o, packets, a.nonces, a.drawn); }
    var n;
    n, err := a.BatchWrite(buf, sizes, headerSize, packets);
    got := [];
    if err.None? {
      assert a.outgoing == Concat(outcome.frames);
      b.incoming := a.outgoing;
      got := ReadChunks(b, rows, lens, target, packets, chunks, outcome.frames);
    }
  }
}
