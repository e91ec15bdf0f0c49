/**
  The transport protocol on values: what WriteMessage, BatchWrite, ReadMessage and ParseBatch
  put on the byte stream and take off it. The in-place methods of module `Transport` are proved
  equal to these functions; the round-trip laws are proved here.
 */
module Wire {
  import opened Bytes
  import opened Codec

  const MAX_FRAME := 65535
  const HEADER := 7
  const INNER_HEADER := 3
  const MAX_BODY := MAX_FRAME - HEADER  // 65528: the largest body that fits the buffers
  const LENGTH_GUARD := 65530           // the bound the code checks instead
  const MAX_BATCH := 128

  const TRANSPORT: byte := 0x00
  const BATCH: byte := 0x01
  const COMPRESSED: byte := 0x10
  const ENCRYPTED: byte := 0x11

  type Magic = m: seq<byte> | |m| == 4 witness [0x56, 0x4E, 0x45, 0x54]
  type Packet = seq<byte>

  datatype Options = Options(
    magic: Magic,
    encrypt: bool,
    compress: bool,
    compressor: Option<Compressor>,
    encryptor: Option<Cipher>,
    threshold: int)
  {
    predicate Compressing() { compress && compressor.Some? }
    predicate Encrypting() { encrypt && encryptor.Some? }

    ghost predicate Lawful() {
      && (compressor.Some? ==> compressor.value.Lawful())
      && (encryptor.Some? ==> encryptor.value.Lawful())
    }

    /** A peer can read what we write: same magic and same layers, whatever its own switches say. */
    ghost predicate Matches(peer: Options) {
      magic == peer.magic && compressor == peer.compressor && encryptor == peer.encryptor
    }
  }

  datatype Message = Message(typ: byte, data: seq<byte>)

  predicate Standard(typ: byte) { typ == TRANSPORT || typ == BATCH }

  /** type(1) + length(2) + data: the unit that is compressed and the unit that is encrypted. */
  function Inner(m: Message): (s: seq<byte>)
    ensures |s| == INNER_HEADER + |m.data|
  {
    [m.typ] + PutUint16(|m.data| % 0x1_0000) + m.data
  }

  function Header(magic: Magic, typ: byte, length: nat): (s: seq<byte>)
    ensures |s| == HEADER
  {
    magic + [typ] + PutUint16(length % 0x1_0000)
  }

  function Frame(magic: Magic, m: Message): (f: seq<byte>)
    ensures |f| == HEADER + |m.data|
  {
    Header(magic, m.typ, |m.data|) + m.data
  }

  // ----- writing one message

  /** The guard under which source and target of the compression share cryptoBuffer. */
  predicate SharesBuffer(innerLen: nat) {
    innerLen + 1000 < MAX_FRAME && MAX_FRAME - innerLen >= innerLen + ZSTD_OVERHEAD
  }

  /** Compress into a target of the given capacity; keep the original unless it got smaller. */
  function Shrink(c: Compressor, m: Message, cap: nat): Result<Message> {
    match c.Compress(Inner(m), cap)
    case Err(e) => Err(e)
    case Ok(z) => Ok(if |z| < |m.data| then Message(COMPRESSED, z) else m)
  }

  function Deflate(o: Options, m: Message): Result<Message> {
    if o.Compressing() && Standard(m.typ) && |m.data| >= o.threshold then
      var innerLen := INNER_HEADER + |m.data|;
      Shrink(o.compressor.value, m, if SharesBuffer(innerLen) then MAX_FRAME - innerLen else MAX_BODY)
    else Ok(m)
  }

  function SealedLen(m: Message): nat { INNER_HEADER + |m.data| + NONCE_SIZE + TAG_SIZE }

  function Sealed(e: Cipher, m: Message, nonce: Nonce): Message {
    Message(ENCRYPTED, nonce + e.seal(nonce, Inner(m)))
  }

  function SealWithin(o: Options, m: Message, nonce: Nonce, limit: nat): Result<Message>
    requires o.Encrypting()
  {
    if SealedLen(m) > limit then Err(MessageTooLarge) else Ok(Sealed(o.encryptor.value, m, nonce))
  }

  /** Does WriteMessage encrypt, once compression has turned `m` into `cur`? */
  predicate Seals(o: Options, m: Message, cur: Message) {
    o.Encrypting() && (Standard(m.typ) || cur.typ == COMPRESSED)
  }

  function Wrap(o: Options, m: Message, nonce: Nonce): Result<Message> {
    match Deflate(o, m)
    case Err(e) => Err(e)
    case Ok(cur) =>
      if Seals(o, m, cur)
      then SealWithin(o, cur, nonce, LENGTH_GUARD) else Ok(cur)
  }

  /** writeRawMessage: two body lengths pass the guard and still do not fit the buffer. */
  function Emit(o: Options, m: Message): Result<seq<byte>> {
    if |m.data| > LENGTH_GUARD then Err(MessageTooLarge)
    else if |m.data| > MAX_BODY then Err(SliceOutOfRange)
    else Ok(Frame(o.magic, m))
  }

  function WireMessage(o: Options, m: Message, nonce: Nonce): Result<seq<byte>> {
    match Wrap(o, m, nonce)
    case Err(e) => Err(e)
    case Ok(w) => Emit(o, w)
  }

  // ----- reading one message

  /**
    Splits type + length + data. The code compares lengths in uint16 arithmetic, so an inner
    length of 65533 or more wraps, passes the check, and then slices out of range. `Ok(None)` is
    a length that fails the check.
   */
  function OpenInner(p: seq<byte>): (r: Result<Option<Message>>)
    requires INNER_HEADER <= |p| <= MAX_BODY
  {
    var length := Uint16(p[1..3]);
    if |p| < (INNER_HEADER + length) % 0x1_0000 then Ok(None)
    else if |p| < INNER_HEADER + length then Err(SliceOutOfRange)
    else Ok(Some(Message(p[0], p[3..3 + length])))
  }

  function Unseal(o: Options, m: Message): Result<Message> {
    if m.typ != ENCRYPTED then Ok(m)
    else if o.encryptor.None? then Err(MissingEncryptor)
    else match o.encryptor.value.Decrypt(m.data, MAX_BODY)
      case Err(e) => Err(e)
      case Ok(p) =>
        if |p| < INNER_HEADER then Ok(Message(ENCRYPTED, p))
        else match OpenInner(p)
          case Err(e) => Err(e)
          case Ok(None) => Ok(Message(p[0], p))
          case Ok(Some(inner)) => Ok(inner)
  }

  function Inflate(o: Options, m: Message): Result<Message> {
    if m.typ != COMPRESSED then Ok(m)
    else if o.compressor.None? then Err(MissingCompressor)
    else match o.compressor.value.Decompress(m.data, MAX_BODY)
      case Err(e) => Err(e)
      case Ok(p) =>
        if |p| < INNER_HEADER then Err(DecompressionFailed)
        else match OpenInner(p)
          case Err(e) => Err(e)
          case Ok(None) => Err(DecompressionFailed)
          case Ok(Some(inner)) => Ok(inner)
  }

  function Unwrap(o: Options, m: Message): Result<Message> {
    match Unseal(o, m)
    case Err(e) => Err(e)
    case Ok(inner) => Inflate(o, inner)
  }

  datatype ReadOutcome = ReadOutcome(result: Result<Message>, rest: seq<byte>)

  /** ReadMessage on the bytes still in the stream. */
  function ReadFrame(o: Options, s: seq<byte>): (r: ReadOutcome)
    ensures |s| > 0 ==> |r.rest| < |s|
  {
    if |s| < 4 then ReadOutcome(Err(UnexpectedEof), [])
    else if s[..4] != o.magic then ReadOutcome(Err(InvalidMagic), s[4..])
    else if |s| < HEADER then ReadOutcome(Err(UnexpectedEof), [])
    else
      var length := Uint16(s[5..7]);
      if length > MAX_BODY then ReadOutcome(Err(SliceOutOfRange), s[HEADER..])  // 7+length wraps
      else if |s| < HEADER + length then ReadOutcome(Err(UnexpectedEof), [])
      else ReadOutcome(Unwrap(o, Message(s[4], s[HEADER..HEADER + length])), s[HEADER + length..])
  }

  // ----- one message there and back

  lemma OpenInnerRoundTrip(m: Message)
    requires INNER_HEADER + |m.data| <= MAX_BODY
    ensures OpenInner(Inner(m)) == Ok(Some(m))
  {
    var n := |m.data|;
    var size := PutUint16(n % 0x1_0000);
    assert n % 0x1_0000 == n;
    InnerParts([m.typ], size, m.data);
    assert Inner(m)[0] == m.typ;
  }

  lemma InnerParts(typ: seq<byte>, size: seq<byte>, data: seq<byte>)
    requires |typ| == 1 && |size| == 2
    ensures (typ + size + data)[1..3] == size && (typ + size + data)[3..3 + |data|] == data
  {
  }

  lemma InflateUndoesShrink(o: Options, m: Message, cap: nat)
    requires o.Lawful() && o.compressor.Some? && m.typ != COMPRESSED && cap <= MAX_FRAME
    requires Shrink(o.compressor.value, m, cap).Ok?
    ensures Inflate(o, Shrink(o.compressor.value, m, cap).value) == Ok(m)
  {
    CompressRoundTrip(o.compressor.value, Inner(m), cap, MAX_BODY);
    OpenInnerRoundTrip(m);
  }

  lemma UnsealUndoesSeal(o: Options, m: Message, nonce: Nonce)
    requires o.Lawful() && o.encryptor.Some? && SealedLen(m) <= LENGTH_GUARD
    ensures var s := Sealed(o.encryptor.value, m, nonce);
            |s.data| == SealedLen(m) && Unseal(o, s) == Ok(m)
  {
    EncryptRoundTrip(o.encryptor.value, nonce, Inner(m), MAX_FRAME, MAX_BODY);
    OpenInnerRoundTrip(m);
  }

  /** The reader unwraps exactly what the writer wrapped, through both layers. */
  lemma UnwrapUndoesWrap(o: Options, peer: Options, m: Message, nonce: Nonce)
    requires o.Lawful() && o.Matches(peer)
    requires m.typ != COMPRESSED && m.typ != ENCRYPTED
    requires Wrap(o, m, nonce).Ok?
    ensures Unwrap(peer, Wrap(o, m, nonce).value) == Ok(m)
  {
    var cur := Deflate(o, m).value;
    if o.Compressing() && Standard(m.typ) && |m.data| >= o.threshold {
      var innerLen := INNER_HEADER + |m.data|;
      InflateUndoesShrink(peer, m, if SharesBuffer(innerLen) then MAX_FRAME - innerLen else MAX_BODY);
    }
    assert Inflate(peer, cur) == Ok(m);
    if Seals(o, m, cur) {
      UnsealUndoesSeal(peer, cur, nonce);
    }
  }

  /** A frame is self-delimiting: reading it consumes its bytes and no more. */
  lemma ReadFrameOfFrame(o: Options, m: Message, rest: seq<byte>)
    requires |m.data| <= MAX_BODY
    ensures ReadFrame(o, Frame(o.magic, m) + rest) == ReadOutcome(Unwrap(o, m), rest)
  {
    var s := Frame(o.magic, m) + rest;
    assert s[..4] == o.magic;
    assert s[5..7] == PutUint16(|m.data|);
    assert s[HEADER..HEADER + |m.data|] == m.data;
    assert s[HEADER + |m.data|..] == rest;
  }

  /** ReadMessage recovers type and bytes of every successful WriteMessage, for every setting. */
  lemma MessageRoundTrip(o: Options, peer: Options, m: Message, nonce: Nonce, rest: seq<byte>)
    requires o.Lawful() && o.Matches(peer)
    requires m.typ != COMPRESSED && m.typ != ENCRYPTED
    requires WireMessage(o, m, nonce).Ok?
    ensures ReadFrame(peer, WireMessage(o, m, nonce).value + rest) == ReadOutcome(Ok(m), rest)
  {
    var w := Wrap(o, m, nonce).value;
    ReadFrameOfFrame(peer, w, rest);
    UnwrapUndoesWrap(o, peer, m, nonce);
  }

  /** Compression refuses exactly the payloads that leave zstd less room than it asks for. */
  lemma DeflateDomain(o: Options, m: Message)
    requires o.Lawful()
    ensures Deflate(o, m).Ok?
       <==> (o.Compressing() && Standard(m.typ) && |m.data| >= o.threshold ==> |m.data| <= 65508)
    ensures Deflate(o, m).Err? ==> Deflate(o, m) == Err(CapacityTooSmall)
  {
    if o.Compressing() { assert |o.compressor.value.encode(Inner(m))| > 0; }
  }

  /**
    The exact domain of WriteMessage. A payload handed to zstd may have 65508 bytes at most.
    Encryption costs 43 bytes, and the guard of 65530 is two bytes too wide: the body lengths 65529
    and 65530 pass it and run off the end of the buffer.
   */
  lemma WriteDomain(o: Options, m: Message, nonce: Nonce)
    requires o.Lawful()
    ensures var w, cur := WireMessage(o, m, nonce), Deflate(o, m);
            if o.Compressing() && Standard(m.typ) && |m.data| >= o.threshold && |m.data| > 65508
            then w == Err(CapacityTooSmall)
            else
              && cur.Ok?
              && var body := |cur.value.data| + if o.Encrypting() && m.typ in {0x00, 0x01, 0x10} then 43 else 0;
                 && (w.Ok? <==> body <= 65528)
                 && (w == Err(SliceOutOfRange) <==> 65529 <= body <= 65530)
                 && (w == Err(MessageTooLarge) <==> 65530 < body)
  {
    DeflateDomain(o, m);
    var cur := Deflate(o, m);
    if cur.Ok? && Seals(o, m, cur.value) && SealedLen(cur.value) <= LENGTH_GUARD {
      UnsealUndoesSeal(o, cur.value, nonce);
    }
  }

  /** For example, a plain payload of 65529 bytes passes the guard and does not fit. */
  lemma PlainRunsOff(o: Options, m: Message, nonce: Nonce)
    requires o.Lawful() && !o.Compressing() && !o.Encrypting() && |m.data| == 65529
    ensures WireMessage(o, m, nonce) == Err(SliceOutOfRange)
  {
    WriteDomain(o, m, nonce);
  }

  // ----- what goes over the wire

  /** A payload that is sent compressed: worth trying, and smaller for it. */
  predicate Smaller(o: Options, m: Message) {
    && o.compress && o.compressor.Some? && m.typ in {0x00, 0x01} && |m.data| >= o.threshold
    && |o.compressor.value.encode(Inner(m))| < |m.data|
  }

  /** The message inside the encryption. */
  function Squeezed(o: Options, m: Message): Message {
    if Smaller(o, m) then Message(0x10, o.compressor.value.encode(Inner(m))) else m
  }

  lemma DeflateIs(o: Options, m: Message)
    requires o.Lawful() && Deflate(o, m).Ok?
    ensures Deflate(o, m).value == Squeezed(o, m)
  {
    if o.Compressing() { assert |o.compressor.value.encode(Inner(m))| > 0; }
  }

  /** Header and body of a frame, byte by byte. */
  lemma FrameBytes(magic: Magic, m: Message)
    requires |m.data| <= 65535
    ensures var f := Frame(magic, m);
            && |f| == 7 + |m.data| && f[..4] == magic && f[4] == m.typ
            && f[5] * 0x100 + f[6] as int == |m.data| && f[7..] == m.data
  {
    var size := PutUint16(|m.data|);
    assert |m.data| % 0x1_0000 == |m.data|;
    BigEndian(|m.data|, 0);
    assert Frame(magic, m) == magic + [m.typ] + size + m.data;
    assert Frame(magic, m)[5] == size[0] && Frame(magic, m)[6] == size[1];
  }

  /**
    Every frame of a successful WriteMessage: with encryption on, a transport or batch message is
    never sent in the clear, and what is sealed, compressed or passed on as it is follows from the
    options and the payload alone.
   */
  lemma FrameForm(o: Options, m: Message, nonce: Nonce)
    requires o.Lawful() && WireMessage(o, m, nonce).Ok?
    ensures var f, cur := WireMessage(o, m, nonce).value, Squeezed(o, m);
            && 7 <= |f| <= 65535 && f[..4] == o.magic && f[5] * 0x100 + f[6] as int == |f| - 7
            && (if o.encrypt && o.encryptor.Some? && m.typ in {0x00, 0x01, 0x10}
                then f[4] == 0x11 && f[7..] == nonce + o.encryptor.value.seal(nonce, Inner(cur))
                else f[4] == cur.typ && f[7..] == cur.data)
    ensures WireMessage(o, m, nonce).value[4] == 0x11
       <==> m.typ == 0x11 || (o.encrypt && o.encryptor.Some? && m.typ in {0x00, 0x01, 0x10})
  {
    DeflateIs(o, m);
    FrameBytes(o.magic, Wrap(o, m, nonce).value);
  }

  // ----- what a reader refuses

  /** The errors of ReadMessage before a body is opened, each with what is left of the stream. */
  lemma ReadErrors(o: Options, s: seq<byte>)
    ensures |s| < 4 ==> ReadFrame(o, s) == ReadOutcome(Err(UnexpectedEof), [])
    ensures |s| >= 4 && s[..4] != o.magic ==> ReadFrame(o, s) == ReadOutcome(Err(InvalidMagic), s[4..])
    ensures 4 <= |s| < 7 && s[..4] == o.magic ==> ReadFrame(o, s) == ReadOutcome(Err(UnexpectedEof), [])
    ensures |s| >= 7 && s[..4] == o.magic ==>
              var n := s[5] * 0x100 + s[6] as int;
              && (n > 65528 ==> ReadFrame(o, s) == ReadOutcome(Err(SliceOutOfRange), s[7..]))
              && (n <= 65528 && |s| < 7 + n ==> ReadFrame(o, s) == ReadOutcome(Err(UnexpectedEof), []))
              && (n <= 65528 && |s| >= 7 + n ==> ReadFrame(o, s).rest == s[7 + n..])
  {
  }

  /**
    The inner message of an opened layer is the one the plaintext begins with. A length of 65533 or
    more wraps past the check and runs off the buffer.
   */
  lemma OpenInnerIff(p: seq<byte>, m: Message)
    requires 3 <= |p| <= 65528
    ensures OpenInner(p) == Ok(Some(m)) <==> |m.data| <= 65525 && Inner(m) <= p
    ensures OpenInner(p) == Err(SliceOutOfRange) <==> p[1] * 0x100 + p[2] as int >= 65533
  {
    var length := Uint16(p[1..3]);
    if OpenInner(p) == Ok(Some(m)) {
      PutOfUint16(p[1..3]);
      assert |m.data| == length && |m.data| % 0x1_0000 == length;
      assert p == [p[0]] + p[1..3] + p[3..3 + length] + p[3 + length..];
    }
    if |m.data| <= 65525 && Inner(m) <= p {
      var rest := p[|Inner(m)|..];
      assert p == Inner(m) + rest;
      assert |m.data| % 0x1_0000 == |m.data|;
      assert p[1..3] == PutUint16(|m.data|) && p[3..3 + |m.data|] == m.data;
    }
  }

  /** What an encryptor's plaintext becomes if it is no inner message: itself, under the type its first byte names. */
  lemma UnsealOdd(o: Options, data: seq<byte>, p: seq<byte>)
    requires o.encryptor.Some? && o.encryptor.value.Decrypt(data, 65528) == Ok(p) && |p| <= 65528
    ensures |p| < 3 ==> Unseal(o, Message(0x11, data)) == Ok(Message(0x11, p))
    ensures |p| >= 3 && |p| < 3 + p[1] * 0x100 + p[2] as int < 65536 ==>
              Unseal(o, Message(0x11, data)) == Ok(Message(p[0], p))
  {
  }

  /** A body is opened only with the layers its type names, and only if they accept it. */
  lemma BodyErrors(o: Options, m: Message)
    ensures m.typ == 0x11 && o.encryptor.None? ==> Unwrap(o, m) == Err(MissingEncryptor)
    ensures m.typ == 0x11 && o.encryptor.Some? && o.encryptor.value.Decrypt(m.data, 65528).Err? ==> Unwrap(o, m).Err?
    ensures m.typ == 0x10 && o.compressor.None? ==> Unwrap(o, m) == Err(MissingCompressor)
    ensures m.typ == 0x10 && o.compressor.Some? && o.compressor.value.Decompress(m.data, 65528).Err? ==>
              Unwrap(o, m).Err?
    ensures m.typ !in {0x10, 0x11} ==> Unwrap(o, m) == Ok(m)
  {
  }
}
