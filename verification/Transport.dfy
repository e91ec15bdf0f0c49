/**
  The Transport object: every message is built and taken apart in two shared 65535-byte arrays.
  Each method is proved equal to the functions of modules Wire and Batch.
 */
module Transport {
  import opened Bytes
  import opened Codec
  import opened Wire
  import opened Batch
  import opened Slices

  class Transport {
    const o: Options
    const nonces: Nonces               // the random source: one nonce per frame
    const buffer: array<byte>
    const cryptoBuffer: array<byte>
    var drawn: nat                     // frames started so far
    var outgoing: seq<byte>            // bytes handed to the upstream
    var incoming: seq<byte>            // bytes the upstream still holds

    ghost predicate Valid() {
      o.Lawful() && buffer != cryptoBuffer && buffer.Length == MAX_FRAME && cryptoBuffer.Length == MAX_FRAME
    }

    ghost predicate Foreign(a: array<byte>) { a != buffer && a != cryptoBuffer }

    constructor (options: Options, nonces: Nonces, incoming: seq<byte>)
      requires options.Lawful()
      ensures Valid() && fresh(buffer) && fresh(cryptoBuffer)
      ensures o == options && this.nonces == nonces
      ensures drawn == 0 && outgoing == [] && this.incoming == incoming
    {
      o := options;
      this.nonces := nonces;
      buffer := new byte[MAX_FRAME];
      cryptoBuffer := new byte[MAX_FRAME];
      drawn, outgoing, this.incoming := 0, [], incoming;
    }

    // ----- writing

    /** Puts header and body at the front of `buffer` and sends them. */
    method SendFrame(typ: byte, body: Slice)
      requires Valid() && body.InRange() && body.len <= MAX_BODY
      // the header must not overwrite a body that already sits in `buffer`
      requires body.arr != buffer || body.off >= HEADER
      modifies this`outgoing, buffer
      ensures outgoing == old(outgoing) + Frame(o.magic, Message(typ, old(body.Content())))
    {
      Store(buffer, 0, Header(o.magic, typ, body.len));
      assert body.Content() == old(body.Content());
      ghost var head := buffer[..HEADER];
      Copy(buffer, HEADER, body.arr, body.off, body.len);
      assert buffer[..HEADER] == head;
      assert buffer[..HEADER + body.len] == head + buffer[HEADER..HEADER + body.len];
      outgoing := outgoing + buffer[..HEADER + body.len];
    }

    method WriteRawMessage(typ: byte, body: Slice) returns (r: Result<nat>)
      requires Valid() && body.InRange() && body.arr != buffer
      modifies this`outgoing, buffer
      ensures match Emit(o, Message(typ, old(body.Content())))
              case Err(e) => r == Err(e) && outgoing == old(outgoing)
              case Ok(f) => r == Ok(|f|) && outgoing == old(outgoing) + f
    {
      if body.len > LENGTH_GUARD { return Err(MessageTooLarge); }
      if HEADER + body.len > buffer.Length { return Err(SliceOutOfRange); }
      SendFrame(typ, body);
      return Ok(HEADER + body.len);
    }

    /** Slice `r` of type `typ` is the message `m`, held in the caller's data or in cryptoBuffer past its header. */
    ghost predicate Carries(r: Result<Slice>, typ: byte, m: Result<Message>, data: Slice)
      reads if r.Ok? then {r.value.arr} else {}
    {
      if m.Err? then r == Err(m.error)
      else
        && r.Ok? && r.value.InRange() && r.value.Content() == m.value.data && typ == m.value.typ
        && (r.value == data || (r.value.arr == cryptoBuffer && r.value.off >= INNER_HEADER))
    }

    /** The compressor left z, or an error, in `n` and in cryptoBuffer from `at` on. */
    ghost predicate Left(n: Result<nat>, at: nat, z: Result<seq<byte>>)
      reads cryptoBuffer
    {
      if z.Err? then n == Err(z.error)
      else
        && n == Ok(|z.value|)
        && (at + |z.value| <= cryptoBuffer.Length ==> cryptoBuffer[at..at + |z.value|] == z.value)
    }

    /** Use the compressed bytes at `at` only if there are fewer of them. */
    method Choose(typ: byte, data: Slice, n: Result<nat>, at: nat, ghost m: Message, ghost cap: nat)
      returns (r: Result<Slice>, curTyp: byte)
      requires Valid() && o.compressor.Some? && data.InRange() && m == Message(typ, data.Content())
      requires INNER_HEADER <= at && at + cap == MAX_FRAME
      requires Left(n, at, o.compressor.value.Compress(Inner(m), cap))
      ensures Carries(r, curTyp, Shrink(o.compressor.value, m, cap), data)
    {
      if n.Err? {
        r, curTyp := Err(n.error), typ;
      } else if n.value < data.len {
        r, curTyp := Ok(Slice(cryptoBuffer, at, n.value)), COMPRESSED;
      } else {
        r, curTyp := Ok(data), typ;
      }
    }

    /** Compresses type + length + data from cryptoBuffer[0..] into the rest of cryptoBuffer. */
    method ShrinkShared(typ: byte, data: Slice, ghost content: seq<byte>) returns (r: Result<Slice>, curTyp: byte)
      requires Valid() && o.compressor.Some? && data.InRange() && data.Content() == content
      requires data.arr != cryptoBuffer && SharesBuffer(INNER_HEADER + data.len)
      modifies cryptoBuffer
      ensures var m := Message(typ, content);
              Carries(r, curTyp, Shrink(o.compressor.value, m, MAX_FRAME - INNER_HEADER - data.len), data)
    {
      var at := INNER_HEADER + data.len;
      StoreInner(cryptoBuffer, 0, typ, data, content);
      var source := Slice(cryptoBuffer, 0, at);
      var n := CompressInto(o.compressor.value, source, cryptoBuffer, at, Inner(Message(typ, content)));
      r, curTyp := Choose(typ, data, n, at, Message(typ, content), MAX_FRAME - at);
    }

    /** Compresses a copy of type + length + data into cryptoBuffer[7..]. */
    method ShrinkCopied(typ: byte, data: Slice, ghost content: seq<byte>) returns (r: Result<Slice>, curTyp: byte)
      requires Valid() && o.compressor.Some? && data.InRange() && data.Content() == content && Foreign(data.arr)
      modifies cryptoBuffer
      ensures Carries(r, curTyp, Shrink(o.compressor.value, Message(typ, content), MAX_BODY), data)
    {
      var temp := NewInner(typ, data, content);
      var n := CompressInto(o.compressor.value, temp, cryptoBuffer, HEADER, Inner(Message(typ, content)));
      r, curTyp := Choose(typ, data, n, HEADER, Message(typ, content), MAX_BODY);
    }

    /** The compression stage of WriteMessage. */
    method DeflateInPlace(typ: byte, data: Slice, ghost content: seq<byte>) returns (r: Result<Slice>, curTyp: byte)
      requires Valid() && data.InRange() && Foreign(data.arr) && data.Content() == content
      modifies cryptoBuffer
      ensures Carries(r, curTyp, Deflate(o, Message(typ, content)), data)
    {
      if !(o.Compressing() && Standard(typ) && data.len >= o.threshold) {
        r, curTyp := Ok(data), typ;
      } else if SharesBuffer(INNER_HEADER + data.len) {
        r, curTyp := ShrinkShared(typ, data, content);
      } else {
        r, curTyp := ShrinkCopied(typ, data, content);
      }
    }

    /** The encryption stage of WriteMessage; its output always lies in cryptoBuffer. */
    method SealInPlace(typ: byte, data: Slice, nonce: Nonce, ghost content: seq<byte>) returns (r: Result<Slice>)
      requires Valid() && o.Encrypting() && data.InRange() && data.Content() == content
      requires data.arr != buffer && (data.arr != cryptoBuffer || data.off >= INNER_HEADER)
      modifies cryptoBuffer
      ensures match SealWithin(o, Message(typ, content), nonce, LENGTH_GUARD)
              case Err(e) => r == Err(e)
              case Ok(m) => r.Ok? && r.value.arr == cryptoBuffer && r.value.InRange() && r.value.Content() == m.data
    {
      var innerLen := INNER_HEADER + data.len;
      var sealedLen := innerLen + NONCE_SIZE + TAG_SIZE;
      if sealedLen > LENGTH_GUARD { return Err(MessageTooLarge); }
      // the pointer test for data at the start of cryptoBuffer never holds, so its branch is dead
      assert !(data.len > 0 && data.arr == cryptoBuffer && data.off == 0);
      ghost var inner := Inner(Message(typ, content));
      var at: nat, n: Result<nat>;
      if innerLen + sealedLen <= cryptoBuffer.Length {
        StoreInner(cryptoBuffer, 0, typ, data, content);
        at := innerLen;
        n := EncryptInto(o.encryptor.value, nonce, Slice(cryptoBuffer, 0, innerLen), cryptoBuffer, at, inner);
      } else {
        var temp := NewInner(typ, data, content);
        at := 0;
        n := EncryptInto(o.encryptor.value, nonce, temp, cryptoBuffer, at, inner);
      }
      return Ok(Slice(cryptoBuffer, at, n.value));
    }

    method WriteMessage(typ: byte, data: Slice) returns (r: Result<nat>)
      requires Valid() && data.InRange() && Foreign(data.arr)
      modifies this`outgoing, this`drawn, buffer, cryptoBuffer
      ensures drawn == old(drawn) + 1
      ensures match WireMessage(o, Message(typ, data.Content()), nonces(old(drawn)))
              case Err(e) => r == Err(e) && outgoing == old(outgoing)
              case Ok(f) => r == Ok(|f|) && outgoing == old(outgoing) + f
    {
      var nonce := nonces(drawn);
      drawn := drawn + 1;
      ghost var content := data.Content();
      var cur, curTyp := DeflateInPlace(typ, data, content);
      if cur.Err? { return Err(cur.error); }
      if o.Encrypting() && (Standard(typ) || curTyp == COMPRESSED) {
        var s := SealInPlace(curTyp, cur.value, nonce, Deflate(o, Message(typ, content)).value.data);
        if s.Err? { return Err(s.error); }
        r := WriteRawMessage(ENCRYPTED, s.value);
      } else {
        r := WriteRawMessage(curTyp, cur.value);
      }
    }

    // ----- writing batches

    /** The caller's buffers hold these packets, each behind the same headroom. */
    ghost predicate Gives(buf: seq<array<byte>>, sizes: seq<nat>, headerSize: nat, packets: seq<Packet>)
      reads buf
    {
      && |buf| == |sizes| == |packets|
      && forall i :: 0 <= i < |buf| ==>
           && headerSize + sizes[i] <= buf[i].Length && Foreign(buf[i])
           && packets[i] == buf[i][headerSize..headerSize + sizes[i]]
    }

    method DataLen(sizes: seq<nat>, ghost packets: seq<Packet>) returns (n: nat)
      requires |sizes| == |packets| && forall i :: 0 <= i < |sizes| ==> sizes[i] == |packets[i]|
      ensures n == |Body(packets)|
    {
      n := 2 + 2 * |sizes|;
      for i := 0 to |sizes|
        invariant n == 2 + 2 * |sizes| + TotalLen(packets[..i])
      {
        TotalLenSnoc(packets[..i], packets[i]);
        assert packets[..i] + [packets[i]] == packets[..i + 1];
        n := n + sizes[i];
      }
      assert packets[..|sizes|] == packets;
      ConcatLen(packets);
    }

    /** The packet count and the size table, at buffer[7..]. */
    method StoreSizes(sizes: seq<nat>, ghost packets: seq<Packet>)
      requires Valid() && 9 + 2 * |sizes| <= MAX_FRAME
      requires |sizes| == |packets| && forall i :: 0 <= i < |sizes| ==> sizes[i] == |packets[i]|
      modifies buffer
      ensures buffer[HEADER..9 + 2 * |sizes|] == PutUint16(|sizes| % 0x1_0000) + SizeList(packets)
    {
      var count := PutUint16(|sizes| % 0x1_0000);
      Store(buffer, HEADER, count);
      for i := 0 to |sizes|
        invariant buffer[HEADER..9 + 2 * i] == count + SizeList(packets[..i])
      {
        SizeListSnoc(packets[..i], packets[i]);
        assert packets[..i] + [packets[i]] == packets[..i + 1];
        Extend(buffer, HEADER, 9 + 2 * i, PutUint16(sizes[i] % 0x1_0000), count + SizeList(packets[..i]));
      }
      assert packets[..|sizes|] == packets;
    }

    /** The packets back to back from `base` on, behind `head`. */
    method StorePackets(
      buf: seq<array<byte>>, sizes: seq<nat>, headerSize: nat, base: nat,
      ghost packets: seq<Packet>, ghost head: seq<byte>)
      requires Valid() && Gives(buf, sizes, headerSize, packets)
      requires HEADER <= base && base + TotalLen(packets) <= MAX_FRAME && buffer[HEADER..base] == head
      modifies buffer
      ensures buffer[HEADER..base + TotalLen(packets)] == head + Concat(packets)
    {
      var offset := base;
      for i := 0 to |buf|
        invariant offset == base + TotalLen(packets[..i]) <= MAX_FRAME
        invariant buffer[HEADER..offset] == head + Concat(packets[..i])
      {
        ghost var done := packets[..i];
        assert done + [packets[i]] == packets[..i + 1];
        TotalLenSnoc(done, packets[i]);
        TotalLenPrefix(packets, i + 1);
        ConcatGrow(head, done, packets[i]);
        assert buf[i][headerSize..headerSize + sizes[i]] == packets[i];
        ExtendCopy(buffer, HEADER, offset, buf[i], headerSize, sizes[i], head + Concat(done));
        offset := offset + sizes[i];
      }
      assert packets[..|buf|] == packets;
    }

    /** Builds the batch body at buffer[7..]. */
    method LayOut(buf: seq<array<byte>>, sizes: seq<nat>, headerSize: nat, ghost packets: seq<Packet>)
      requires Valid() && Gives(buf, sizes, headerSize, packets)
      requires |Body(packets)| <= MAX_BODY
      modifies buffer
      ensures buffer[HEADER..HEADER + |Body(packets)|] == Body(packets)
    {
      ConcatLen(packets);
      StoreSizes(sizes, packets);
      StorePackets(buf, sizes, headerSize, 9 + 2 * |sizes|, packets, PutUint16(|sizes| % 0x1_0000) + SizeList(packets));
    }

    /** The compression stage of batchWrite, on a body in buffer[7..7 + n]. */
    method DeflateBatchInPlace(n: nat, ghost body: seq<byte>) returns (r: Result<Slice>, curTyp: byte)
      requires Valid() && n <= MAX_BODY && buffer[HEADER..HEADER + n] == body
      modifies cryptoBuffer
      ensures Carries(r, curTyp, DeflateBatch(o, Message(BATCH, body)), Slice(buffer, HEADER, n))
    {
      var data := Slice(buffer, HEADER, n);
      var innerLen := INNER_HEADER + n;
      if !(o.Compressing() && n >= o.threshold) {
        r, curTyp := Ok(data), BATCH;
      } else if SharesBuffer(innerLen) {
        r, curTyp := ShrinkShared(BATCH, data, body);
      } else if innerLen > cryptoBuffer.Length - HEADER {
        r, curTyp := Err(MessageTooLarge), BATCH;
      } else {
        StoreInner(cryptoBuffer, HEADER, BATCH, data, body);
        var z := CompressInto(o.compressor.value, Slice(cryptoBuffer, HEADER, innerLen), cryptoBuffer,
                              HEADER + innerLen, Inner(Message(BATCH, body)));
        // the target behind a source this long never has the room zstd asks for
        assert z == Err(CapacityTooSmall);
        r, curTyp := Err(CapacityTooSmall), BATCH;
      }
    }

    /** The encryption stage of batchWrite; `buffer` itself is the scratch space for long bodies. */
    method SealBatchInPlace(typ: byte, data: Slice, nonce: Nonce, ghost content: seq<byte>) returns (r: Result<Slice>)
      requires Valid() && o.Encrypting() && data.InRange() && data.Content() == content
      requires (data.arr == buffer && data.off == HEADER) || (data.arr == cryptoBuffer && data.off >= INNER_HEADER)
      modifies buffer, cryptoBuffer
      ensures var m := SealWithin(o, Message(typ, content), nonce, MAX_BODY);
              if m.Err? then r == Err(m.error)
              else
                && r.Ok? && r.value.arr == cryptoBuffer && r.value.InRange()
                && r.value.Content() == m.value.data && r.value.len <= MAX_BODY
    {
      var innerLen := INNER_HEADER + data.len;
      var sealedLen := innerLen + NONCE_SIZE + TAG_SIZE;
      if sealedLen > MAX_BODY { return Err(MessageTooLarge); }
      // the pointer test never holds, so an encrypting transport never falls through to plain output
      assert !(data.len > 0 && data.arr == cryptoBuffer && data.off == 0);
      var shared := innerLen + sealedLen <= cryptoBuffer.Length;
      var scratch, at := if shared then cryptoBuffer else buffer, if shared then innerLen else 0;
      var sealed := SealFrom(scratch, at, typ, data, nonce, content);
      assert SealWithin(o, Message(typ, content), nonce, MAX_BODY) == Ok(Message(ENCRYPTED, sealed.Content()));
      r := Ok(sealed);
    }

    /** Builds type + length + data at the front of `scratch` and encrypts it into cryptoBuffer[at..]. */
    method SealFrom(scratch: array<byte>, at: nat, typ: byte, data: Slice, nonce: Nonce, ghost content: seq<byte>)
      returns (r: Slice)
      requires Valid() && o.encryptor.Some? && data.InRange() && data.Content() == content
      requires (data.arr == buffer && data.off == HEADER) || (data.arr == cryptoBuffer && data.off >= INNER_HEADER)
      requires scratch == buffer || (scratch == cryptoBuffer && at >= INNER_HEADER + data.len)
      requires at + INNER_HEADER + data.len + NONCE_SIZE + TAG_SIZE <= MAX_FRAME
      modifies buffer, cryptoBuffer
      ensures r.arr == cryptoBuffer && r.InRange() && r.len == INNER_HEADER + data.len + NONCE_SIZE + TAG_SIZE
      ensures o.encryptor.value.Encrypt(nonce, Inner(Message(typ, content)), MAX_FRAME - at) == Ok(r.Content())
    {
      StoreInner(scratch, 0, typ, data, content);
      var source := Slice(scratch, 0, INNER_HEADER + data.len);
      var n := EncryptInto(o.encryptor.value, nonce, source, cryptoBuffer, at, Inner(Message(typ, content)));
      r := Slice(cryptoBuffer, at, n.value);
    }

    /** What batchWrite does after the compression stage. */
    method SealAndSend(data: Slice, nonce: Nonce, ghost m: Message, typ: byte) returns (r: Result<nat>)
      requires Valid() && data.InRange() && data.len <= MAX_BODY && m == Message(typ, data.Content())
      requires (data.arr == buffer && data.off == HEADER) || (data.arr == cryptoBuffer && data.off >= INNER_HEADER)
      modifies this`outgoing, buffer, cryptoBuffer
      ensures var w := SealBatch(o, m, nonce);
              if w.Err? then r == Err(w.error) && outgoing == old(outgoing)
              else r == Ok(HEADER + |w.value.data|) && outgoing == old(outgoing) + Frame(o.magic, w.value)
    {
      if o.Encrypting() {
        var s := SealBatchInPlace(typ, data, nonce, m.data);
        if s.Err? { return Err(s.error); }
        SendFrame(ENCRYPTED, s.value);
        r := Ok(HEADER + s.value.len);
      } else {
        SendFrame(typ, data);
        r := Ok(HEADER + data.len);
      }
    }

    /** Everything batchWrite does once the body is in buffer[7..7 + n]. */
    method SendBody(n: nat, nonce: Nonce, ghost body: seq<byte>) returns (r: Result<nat>)
      requires Valid() && n <= MAX_BODY && buffer[HEADER..HEADER + n] == body
      modifies this`outgoing, buffer, cryptoBuffer
      ensures var w := WrapBody(o, body, nonce);
              if w.Err? then r == Err(w.error) && outgoing == old(outgoing)
              else r == Ok(HEADER + |w.value.data|) && outgoing == old(outgoing) + Frame(o.magic, w.value)
    {
      var cur, curTyp := DeflateBatchInPlace(n, body);
      if cur.Err? { return Err(cur.error); }
      r := SealAndSend(cur.value, nonce, DeflateBatch(o, Message(BATCH, body)).value, curTyp);
    }

    method BatchWriteChunk(buf: seq<array<byte>>, sizes: seq<nat>, headerSize: nat, ghost packets: seq<Packet>)
      returns (r: Result<nat>)
      requires Valid() && Gives(buf, sizes, headerSize, packets)
      modifies this`outgoing, this`drawn, buffer, cryptoBuffer
      ensures drawn == old(drawn) + 1
      ensures match WireChunk(o, packets, nonces(old(drawn)))
              case Err(e) => r == Err(e) && outgoing == old(outgoing)
              case Ok(f) => r == Ok(|f|) && outgoing == old(outgoing) + f
    {
      var nonce := nonces(drawn);
      drawn := drawn + 1;
      var n := DataLen(sizes, packets);
      if n > LENGTH_GUARD { return Err(MessageTooLarge); }
      if HEADER + n > buffer.Length { return Err(SliceOutOfRange); }
      LayOut(buf, sizes, headerSize, packets);
      r := SendBody(n, nonce, Body(packets));
    }

    /** The splitter's inner loop: how far the chunk that begins at `start` reaches. */
    method ChunkEnd(sizes: seq<nat>, start: nat, ghost packets: seq<Packet>) returns (end: nat)
      requires |sizes| == |packets| && forall i :: 0 <= i < |sizes| ==> sizes[i] == |packets[i]|
      requires start <= |sizes|
      ensures start <= end <= |sizes| && end - start == TakeChunk(o, packets[start..])
    {
      ghost var rest := packets[start..];
      var remaining: int := MAX_FRAME - (HEADER + 2 + if o.Encrypting() then TAG_SIZE else 0);
      end := start;
      while end < |sizes| && remaining >= 2 + sizes[end] && end - start < MAX_BATCH
        invariant start <= end <= |sizes| && end - start <= MAX_BATCH
        invariant 0 <= remaining == Budget(o) - Cost(rest[..end - start])
      {
        CostAppend(rest[..end - start], [rest[end - start]]);
        assert rest[..end - start] + [rest[end - start]] == rest[..end - start + 1];
        remaining := remaining - (2 + sizes[end]);
        end := end + 1;
      }
      if end < |sizes| {
        CostAppend(rest[..end - start], [rest[end - start]]);
        assert rest[..end - start] + [rest[end - start]] == rest[..end - start + 1];
      }
      TakeIsUnique(rest, Budget(o), MAX_BATCH, end - start);
    }

    /** `write` is what this transport does with a chunk; used only where WireChunk is in play. */
    ghost predicate Implements(write: Writer) {
      forall c, k {:trigger WireChunk(o, c, nonces(k))} :: write(c, k) == WireChunk(o, c, nonces(k))
    }

    /** BatchWriteChunk on a sub-range of the caller's buffers. */
    method WriteRange(buf: seq<array<byte>>, sizes: seq<nat>, headerSize: nat, start: nat, end: nat,
                      ghost packets: seq<Packet>, ghost write: Writer) returns (r: Result<nat>)
      requires Valid() && Gives(buf, sizes, headerSize, packets)
      requires start <= end <= |buf| && Implements(write)
      modifies this`outgoing, this`drawn, buffer, cryptoBuffer
      ensures drawn == old(drawn) + 1
      ensures var f := write(packets[start..end], old(drawn));
              if f.Err? then r == Err(f.error) && outgoing == old(outgoing)
              else r == Ok(|f.value|) && outgoing == old(outgoing) + f.value
    {
      r := BatchWriteChunk(buf[start..end], sizes[start..end], headerSize, packets[start..end]);
    }

    /** One round of BatchWrite's loop: splits off a chunk and sends it. */
    method WriteNext(buf: seq<array<byte>>, sizes: seq<nat>, headerSize: nat, start: nat,
                     ghost packets: seq<Packet>, ghost write: Writer, ghost sent: seq<seq<byte>>)
      returns (end: nat, r: Result<nat>, ghost f: seq<byte>)
      requires Valid() && Gives(buf, sizes, headerSize, packets) && Implements(write) && start < |buf|
      modifies this`outgoing, this`drawn, buffer, cryptoBuffer
      ensures start <= end <= |buf| && Gives(buf, sizes, headerSize, packets)
      ensures Progress(o, packets, write, old(drawn), sent, start, end, r, f, drawn)
      ensures outgoing == if end == start || r.Err? then old(outgoing) else old(outgoing) + f
    {
      ghost var k := drawn;
      end := ChunkEnd(sizes, start, packets);
      r, f := Ok(0), [];
      if end > start {
        ghost var w := write(packets[start..end], k);
        r := WriteRange(buf, sizes, headerSize, start, end, packets, write);
        if w.Ok? { f := w.value; }
      }
      RoundProgresses(o, packets, write, k, sent, start, end, r, f);
    }

    /** BatchWrite's loop. */
    method BatchWriteLoop(buf: seq<array<byte>>, sizes: seq<nat>, headerSize: nat, ghost packets: seq<Packet>,
                          ghost write: Writer)
      returns (n: nat, err: Option<Error>)
      requires Valid() && Gives(buf, sizes, headerSize, packets) && Implements(write)
      modifies this`outgoing, this`drawn, buffer, cryptoBuffer
      ensures var r := BatchFrom(o, packets, write, old(drawn));
              n == r.Count() && err == r.Error() && outgoing == old(outgoing) + Concat(r.frames)
    {
      ghost var sent: seq<seq<byte>> := [];
      var start: nat, last: nat := 0, 0;
      n, err := 0, None;
      assert packets[0..] == packets;
      while start < |buf|
        invariant start <= |buf| && Gives(buf, sizes, headerSize, packets) && err == None
        invariant n == TotalLen(sent) && last == LastLen(sent)
        invariant outgoing == old(outgoing) + Concat(sent)
        invariant BatchFrom(o, packets, write, old(drawn)) == After(sent, BatchFrom(o, packets[start..], write, drawn))
      {
        var end, r, f := WriteNext(buf, sizes, headerSize, start, packets, write, sent);
        if end == start { return last, Some(MessageTooLarge); }
        if r.Err? { return 0, Some(r.error); }
        ConcatGrow(old(outgoing), sent, f);
        TotalLenSnoc(sent, f);
        sent := sent + [f];
        n, last, start := n + r.value, r.value, end;
      }
    }

    /** Returns what the code returns: a byte count, together with the error that stopped it, if any. */
    method BatchWrite(buf: seq<array<byte>>, sizes: seq<nat>, headerSize: nat, ghost packets: seq<Packet>)
      returns (n: nat, err: Option<Error>)
      requires Valid() && Gives(buf, sizes, headerSize, packets)
      modifies this`outgoing, this`drawn, buffer, cryptoBuffer
      ensures var r := WireBatch(o, packets, nonces, old(drawn));
              n == r.Count() && err == r.Error() && outgoing == old(outgoing) + Concat(r.frames)
    {
      n, err := BatchWriteLoop(buf, sizes, headerSize, packets, ChunkWriter(o, nonces));
    }

    // ----- parsing batches

    /** Reads the size table; Ok(false) means the sizes array is too small. */
    static method ParseSizeTable(data: seq<byte>, count: nat, sizes: array<int>) returns (r: Result<bool>)
      requires |data| >= 2
      modifies sizes
      ensures var p := ParseSizes(data[2..], count);
              && (p.Some? && count <= sizes.Length ==> r == Ok(true) && sizes[..count] == p.value)
              && (p.Some? && count > sizes.Length ==> r == Ok(false))
              && (p.None? ==> r != Ok(true))
    {
      var i := 0;
      ghost var whole := ParseSizes(data[2..], count);
      ghost var done: seq<nat> := [];
      assert whole.Some? ==> done + whole.value == whole.value;
      while i < count
        invariant i <= count && i <= sizes.Length && sizes[..i] == done
        invariant SizesPending(whole, data, count, i, done)
      {
        if i >= sizes.Length { return Ok(false); }
        SizesStep(whole, data, count, i, done);
        if 4 + 2 * i > |data| { return Err(SliceOutOfRange); }
        sizes[i] := Uint16(data[2 + 2 * i..4 + 2 * i]);
        assert sizes[..i + 1] == done + [sizes[i]];
        done := done + [sizes[i]];
        i := i + 1;
      }
      r := Ok(true);
    }

    /** The row holds the packet behind the headroom. */
    static ghost predicate Placed(row: array<byte>, offset: nat, packet: Packet)
      reads row
    {
      offset + |packet| <= row.Length && row[offset..offset + |packet|] == packet
    }

    /** Every packet has a row that is long enough for it. */
    static ghost predicate Fits(buf: seq<array<byte>>, offset: nat, packets: seq<Packet>) {
      |packets| <= |buf| && forall i :: 0 <= i < |packets| ==> offset + |packets[i]| <= buf[i].Length
    }

    /** The same, told by the packets' lengths. */
    static ghost predicate Rooms(buf: seq<array<byte>>, offset: nat, lens: seq<nat>) {
      |lens| <= |buf| && forall i :: 0 <= i < |lens| ==> offset + lens[i] <= buf[i].Length
    }

    static ghost predicate PlacedAll(buf: seq<array<byte>>, offset: nat, packets: seq<Packet>)
      reads buf
    {
      |packets| <= |buf| && forall i :: 0 <= i < |packets| ==> Placed(buf[i], offset, packets[i])
    }

    /** Fills the next row; the rows before it are distinct arrays and keep their packets. */
    static method PlaceNext(buf: seq<array<byte>>, offset: nat, packet: Packet, ghost done: seq<Packet>, i: nat)
      requires forall i, j :: 0 <= i < j < |buf| ==> buf[i] != buf[j]
      requires i == |done| < |buf| && PlacedAll(buf, offset, done) && offset + |packet| <= buf[i].Length
      modifies buf[i]
      ensures PlacedAll(buf, offset, done + [packet])
    {
      Store(buf[i], offset, packet);
      forall j | 0 <= j < i ensures Placed(buf[j], offset, done[j]) {
        assert buf[j] != buf[i];
      }
    }

    /** One round of the copying loop: the next packet into the next row, unless there is no room or no data. */
    static method PlaceRound(data: seq<byte>, pos: nat, lens: seq<nat>, i: nat, buf: seq<array<byte>>, offset: nat,
                             ghost whole: Option<seq<Packet>>, ghost done: seq<Packet>)
      returns (failed: Option<Error>, ghost done': seq<Packet>)
      requires forall i, j :: 0 <= i < j < |buf| ==> buf[i] != buf[j]
      requires i < |lens| && i == |done| <= |buf| && PlacedAll(buf, offset, done)
      requires Pending(whole, data, pos, lens, i, done)
      modifies buf
      ensures if failed.Some? then whole.None? || (failed.value == BatchTargetTooSmall && !Rooms(buf, offset, lens))
              else
                && i < |buf| && |done'| == i + 1 && PlacedAll(buf, offset, done')
                && Pending(whole, data, pos + lens[i], lens, i + 1, done')
    {
      done' := done;
      if i >= |buf| || buf[i].Length < offset + lens[i] { return Some(BatchTargetTooSmall), done; }
      CutStep(whole, data, pos, lens, i, done);
      if pos + lens[i] > |data| { return Some(SliceOutOfRange), done; }
      done' := done + [data[pos..pos + lens[i]]];
      PlaceNext(buf, offset, data[pos..pos + lens[i]], done, i);
      failed := None;
    }

    /** The copying loop. */
    static method PlaceLoop(data: seq<byte>, at: nat, lens: seq<nat>, buf: seq<array<byte>>, offset: nat,
                            ghost whole: Option<seq<Packet>>)
      returns (failed: Option<Error>)
      requires forall i, j :: 0 <= i < j < |buf| ==> buf[i] != buf[j]
      requires Pending(whole, data, at, lens, 0, [])
      modifies buf
      ensures if failed.Some? then whole.None? || (failed.value == BatchTargetTooSmall && !Rooms(buf, offset, lens))
              else whole.Some? && PlacedAll(buf, offset, whole.value)
    {
      var pos: nat, i: nat := at, 0;
      ghost var done: seq<Packet> := [];
      while i < |lens|
        invariant i <= |lens| && i == |done| <= |buf| && PlacedAll(buf, offset, done)
        invariant Pending(whole, data, pos, lens, i, done)
      {
        failed, done := PlaceRound(data, pos, lens, i, buf, offset, whole, done);
        if failed.Some? { return; }
        pos, i := pos + lens[i], i + 1;
      }
      CutEnd(whole, data, pos, lens, done);
      failed := None;
    }

    /** Cuts data[at..] into packets and copies each into its row. */
    static method PlacePackets(data: seq<byte>, at: nat, lens: seq<nat>, buf: seq<array<byte>>, offset: nat)
      returns (r: Result<nat>)
      requires at <= |data| && forall i, j :: 0 <= i < j < |buf| ==> buf[i] != buf[j]
      modifies buf
      ensures var p := Cut(data[at..], lens);
              if p.None? then r.Err?
              else if !Fits(buf, offset, p.value) then r == Err(BatchTargetTooSmall)
              else r == Ok(|lens|) && PlacedAll(buf, offset, p.value)
    {
      CutStart(data, at, lens);
      var failed := PlaceLoop(data, at, lens, buf, offset, Cut(data[at..], lens));
      r := if failed.Some? then Err(failed.value) else Ok(|lens|);
    }

    /** What ParseBatch must have done when the body claims to hold `p`. */
    static ghost predicate Parsed(
      r: Result<nat>, p: Option<seq<Packet>>, buf: seq<array<byte>>, sizes: array<int>, offset: nat)
      reads buf, sizes
    {
      if p.None? then r.Err?
      else if !Fits(buf, offset, p.value) || |p.value| > sizes.Length then r == Err(BatchTargetTooSmall)
      else
        && r == Ok(|p.value|) && PlacedAll(buf, offset, p.value)
        && forall i :: 0 <= i < |p.value| ==> sizes[i] == |p.value[i]|
    }

    /** The copying half of ParseBatch, once the size table has been read. */
    static method PlaceTable(
      data: seq<byte>, at: nat, lens: seq<nat>, buf: seq<array<byte>>, sizes: array<int>, offset: nat)
      returns (r: Result<nat>)
      requires at <= |data| && |lens| <= sizes.Length && sizes[..|lens|] == lens
      requires forall i, j :: 0 <= i < j < |buf| ==> buf[i] != buf[j]
      requires forall i :: 0 <= i < |buf| ==> buf[i] as object != sizes
      modifies buf
      ensures Parsed(r, Cut(data[at..], lens), buf, sizes, offset)
    {
      r := PlacePackets(data, at, lens, buf, offset);
      assert forall i :: 0 <= i < |lens| ==> sizes[i] == sizes[..|lens|][i];
    }

    /**
      `data` is what the slice's capacity gives access to: the code slices it without ever looking at
      its length, so a body that is shorter than it claims is completed from the bytes behind it.
     */
    static method ParseBatch(data: seq<byte>, buf: seq<array<byte>>, sizes: array<int>, offset: nat)
      returns (r: Result<nat>)
      requires forall i, j :: 0 <= i < j < |buf| ==> buf[i] != buf[j]
      requires forall i :: 0 <= i < |buf| ==> buf[i] as object != sizes
      modifies sizes, buf
      ensures Parsed(r, Parse(data), buf, sizes, offset)
    {
      if |data| < 2 { return Err(SliceOutOfRange); }
      ParseHalves(data, Uint16(data[..2]));
      r := ParseCounted(data, Uint16(data[..2]), buf, sizes, offset, Parse(data));
    }

    /** What follows once the count has been read. */
    static method ParseCounted(data: seq<byte>, count: nat, buf: seq<array<byte>>, sizes: array<int>, offset: nat,
                               ghost p: Option<seq<Packet>>)
      returns (r: Result<nat>)
      requires forall i, j :: 0 <= i < j < |buf| ==> buf[i] != buf[j]
      requires forall i :: 0 <= i < |buf| ==> buf[i] as object != sizes
      requires |data| >= 2 && Halved(data, count, p)
      modifies sizes, buf
      ensures Parsed(r, p, buf, sizes, offset)
    {
      var t := ParseSizeTable(data, count, sizes);
      if t == Ok(true) {
        r := PlaceTable(data, 2 + 2 * count, sizes[..count], buf, sizes, offset);
      } else {
        assert p.Some? ==> |p.value| == count > sizes.Length;
        r := Err(if t.Err? then t.error else BatchTargetTooSmall);
      }
    }

    // ----- reading

    /** io.ReadFull into buffer[at..at + n]; a short stream is used up. */
    method ReadFull(at: nat, n: nat) returns (ok: bool)
      requires Valid() && at + n <= MAX_FRAME
      modifies this`incoming, buffer
      ensures ok <==> n <= |old(incoming)|
      ensures ok ==> incoming == old(incoming)[n..] && buffer[at..at + n] == old(incoming)[..n]
      ensures !ok ==> incoming == []
      ensures ChangedWithin(buffer, at, at + n)
    {
      ok := n <= |incoming|;
      var got := if ok then n else |incoming|;
      Store(buffer, at, incoming[..got]);
      incoming := incoming[got..];
    }

    /** The message of type and length `r` whose data starts at buffer[7]. */
    ghost predicate Holds(r: Result<(byte, nat)>, m: Result<Message>)
      reads buffer
    {
      if m.Err? then r == Err(m.error)
      else
        && r.Ok? && r.value == (m.value.typ, |m.value.data|) && HEADER + r.value.1 <= buffer.Length
        && buffer[HEADER..HEADER + r.value.1] == m.value.data
    }

    /** Takes type + length + data in a[7..7 + n] apart and moves the data to buffer[7..]; None when n is too short. */
    method OpenInPlace(a: array<byte>, n: nat, ghost p: seq<byte>) returns (r: Result<Option<(byte, nat)>>)
      requires Valid() && (a == buffer || a == cryptoBuffer) && INNER_HEADER <= n <= MAX_BODY
      requires a[HEADER..HEADER + n] == p
      modifies buffer
      ensures OpenInner(p).Err? ==> r == Err(OpenInner(p).error)
      ensures OpenInner(p) == Ok(None) ==> r == Ok(None) && buffer[..] == old(buffer[..])
      ensures OpenInner(p).Ok? && OpenInner(p).value.Some? ==>
                r.Ok? && r.value.Some? && Holds(Ok(r.value.value), Ok(OpenInner(p).value.value))
    {
      Window(a[..], HEADER, n, 1, INNER_HEADER);
      assert p[0] == a[HEADER] && p[1..3] == a[8..10];
      var typ, length := a[HEADER], Uint16(a[8..10]);
      if n < (INNER_HEADER + length) % 0x1_0000 { return Ok(None); }
      if 10 + length > a.Length { return Err(SliceOutOfRange); }
      if INNER_HEADER + length <= n { Window(a[..], HEADER, n, INNER_HEADER, INNER_HEADER + length); }
      Copy(buffer, HEADER, a, 10, length);
      r := Ok(Some((typ, length)));
    }

    method UnsealInPlace(typ: byte, n: nat, ghost body: seq<byte>) returns (r: Result<(byte, nat)>)
      requires Valid() && n <= MAX_BODY && buffer[HEADER..HEADER + n] == body
      modifies buffer, cryptoBuffer
      ensures Holds(r, Unseal(o, Message(typ, body)))
    {
      if typ != ENCRYPTED { return Ok((typ, n)); }
      if o.encryptor.None? { return Err(MissingEncryptor); }
      var d := DecryptInto(o.encryptor.value, Slice(buffer, HEADER, n), cryptoBuffer, HEADER, body);
      if d.Err? { return Err(d.error); }
      // the decryptor's capacity check makes the test against 65528 redundant
      assert d.value <= MAX_BODY;
      ghost var p := cryptoBuffer[HEADER..HEADER + d.value];
      Copy(buffer, HEADER, cryptoBuffer, HEADER, d.value);
      if d.value < INNER_HEADER { return Ok((ENCRYPTED, d.value)); }
      var outer := buffer[HEADER];
      var inner := OpenInPlace(buffer, d.value, p);
      if inner.Err? { return Err(inner.error); }
      if inner.value.None? { return Ok((outer, d.value)); }
      r := Ok(inner.value.value);
    }

    method InflateInPlace(typ: byte, n: nat, ghost body: seq<byte>) returns (r: Result<(byte, nat)>)
      requires Valid() && n <= MAX_BODY && buffer[HEADER..HEADER + n] == body
      modifies buffer, cryptoBuffer
      ensures Holds(r, Inflate(o, Message(typ, body)))
    {
      if typ != COMPRESSED { return Ok((typ, n)); }
      if o.compressor.None? { return Err(MissingCompressor); }
      var d := DecompressInto(o.compressor.value, Slice(buffer, HEADER, n), cryptoBuffer, HEADER, body);
      if d.Err? { return Err(d.error); }
      if d.value < INNER_HEADER { return Err(DecompressionFailed); }
      var inner := OpenInPlace(cryptoBuffer, d.value, cryptoBuffer[HEADER..HEADER + d.value]);
      if inner.Err? { return Err(inner.error); }
      if inner.value.None? { return Err(DecompressionFailed); }
      r := Ok(inner.value.value);
    }

    /** The header and the raw body of the next frame, into buffer. */
    method ReadRawFrame() returns (r: Result<(byte, nat)>)
      requires Valid()
      modifies this`incoming, buffer
      ensures incoming == ReadFrame(o, old(incoming)).rest
      ensures var s := old(incoming);
              if r.Err? then ReadFrame(o, s).result == Err(r.error)
              else
                && HEADER + r.value.1 <= |s| && r.value.1 <= MAX_BODY
                && buffer[HEADER..HEADER + r.value.1] == s[HEADER..HEADER + r.value.1]
                && ReadFrame(o, s).result == Unwrap(o, Message(r.value.0, s[HEADER..HEADER + r.value.1]))
    {
      ghost var s := incoming;
      var ok := ReadFull(0, 4);
      if !ok { return Err(UnexpectedEof); }
      if buffer[0..4] != o.magic { return Err(InvalidMagic); }
      ok := ReadFull(4, 3);
      if !ok { return Err(UnexpectedEof); }
      assert buffer[4..7] == s[4..7];
      assert buffer[4] == buffer[4..7][0] == s[4] && buffer[5..7] == buffer[4..7][1..] == s[5..7];
      var typ, length := buffer[4], Uint16(buffer[5..7]);
      // the slice bound 7+length is computed in uint16
      if (HEADER + length) % 0x1_0000 < HEADER { return Err(SliceOutOfRange); }
      ok := ReadFull(HEADER, length);
      if !ok { return Err(UnexpectedEof); }
      assert s[HEADER..][..length] == s[HEADER..HEADER + length];
      r := Ok((typ, length));
    }

    method ReadMessage(data: array<byte>) returns (r: Result<(byte, nat)>)
      requires Valid() && Foreign(data)
      modifies this`incoming, buffer, cryptoBuffer, data
      ensures incoming == ReadFrame(o, old(incoming)).rest
      ensures var m := ReadFrame(o, old(incoming)).result;
              if m.Err? then r == Err(m.error) && data[..] == old(data[..])
              else
                && r == Ok((m.value.typ, |m.value.data|))
                && var k := if data.Length < |m.value.data| then data.Length else |m.value.data|;
                   data[..k] == m.value.data[..k] && ChangedWithin(data, 0, k)
    {
      ghost var s := incoming;
      var f := ReadRawFrame();
      if f.Err? { return Err(f.error); }
      ghost var body := s[HEADER..HEADER + f.value.1];
      var u := UnsealInPlace(f.value.0, f.value.1, body);
      if u.Err? { return Err(u.error); }
      var m := InflateInPlace(u.value.0, u.value.1, Unseal(o, Message(f.value.0, body)).value.data);
      if m.Err? { return Err(m.error); }
      var k := if data.Length < m.value.1 then data.Length else m.value.1;
      ghost var content := ReadFrame(o, s).result.value.data;
      Window(buffer[..], HEADER, m.value.1, 0, k);
      assert buffer[HEADER..HEADER + k] == buffer[HEADER..HEADER + m.value.1][..k] == content[..k];
      Copy(data, 0, buffer, HEADER, k);
      assert data[0..0 + k] == data[..k];
      r := m;
    }
  }
}
