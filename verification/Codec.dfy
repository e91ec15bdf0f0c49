/**
  The two pluggable layers of the transport, as values.

  The insides of zstd and XChaCha20-Poly1305 are opaque: a layer is a record of functions,
  and `Lawful` states the only laws the transport relies on. What is modelled exactly is the
  length and capacity contract that the wrappers add around them.
 */
module Codec {
  import opened Bytes

  const NONCE_SIZE := 24
  const TAG_SIZE := 16
  const ZSTD_OVERHEAD := 17

  datatype Error =
    | InvalidMagic
    | MessageTooLarge
    | MissingCompressor
    | MissingEncryptor
    | DecompressionFailed
    | InvalidCiphertext
    | CapacityTooSmall
    | UnexpectedEof
    | BatchTargetTooSmall
    | SliceOutOfRange   // the run-time panic of an out-of-range slice expression

  datatype Result<+T> = Ok(value: T) | Err(error: Error)

  type Nonce = n: seq<byte> | |n| == NONCE_SIZE witness seq(NONCE_SIZE, _ => 0)

  datatype Compressor = Compressor(
    encode: seq<byte> -> seq<byte>,
    decode: seq<byte> -> Option<seq<byte>>)
  {
    ghost predicate Lawful() {
      forall d {:trigger encode(d)} :: |d| > 0 ==> |encode(d)| > 0 && decode(encode(d)) == Some(d)
    }

    /** ZstdCompressor.Compress: the bytes it produces for a target slice of capacity `cap`. */
    function Compress(data: seq<byte>, cap: nat): Result<seq<byte>> {
      if |data| == 0 then Ok([])
      else if cap < |data| + ZSTD_OVERHEAD then Err(CapacityTooSmall)
      else if |encode(data)| == 0 then Err(CapacityTooSmall)
      else Ok(encode(data))
    }

    /** ZstdCompressor.Decompress, for a target slice of capacity `cap`. */
    function Decompress(data: seq<byte>, cap: nat): (r: Result<seq<byte>>)
      ensures r.Ok? ==> 0 < |r.value| <= cap
    {
      if |data| == 0 then Err(DecompressionFailed)
      else match decode(data)
        case None => Err(DecompressionFailed)
        case Some(plain) => if 0 < |plain| <= cap then Ok(plain) else Err(CapacityTooSmall)
    }
  }

  datatype Cipher = Cipher(
    seal: (Nonce, seq<byte>) -> seq<byte>,
    open: (Nonce, seq<byte>) -> Option<seq<byte>>)
  {
    ghost predicate Lawful() {
      forall n: Nonce, d {:trigger seal(n, d)} :: |seal(n, d)| == |d| + TAG_SIZE && open(n, seal(n, d)) == Some(d)
    }

    /** Chacha20Poly1305Encryptor.Encrypt: nonce, then ciphertext with its tag. */
    function Encrypt(nonce: Nonce, data: seq<byte>, cap: nat): Result<seq<byte>> {
      if cap < NONCE_SIZE + |data| + TAG_SIZE then Err(CapacityTooSmall)
      else Ok(nonce + seal(nonce, data))
    }

    /** Chacha20Poly1305Encryptor.Decrypt, for a target slice of capacity `cap`. */
    function Decrypt(data: seq<byte>, cap: nat): (r: Result<seq<byte>>)
      ensures r.Ok? ==> |r.value| <= cap
    {
      if |data| < NONCE_SIZE then Err(InvalidCiphertext)
      else match open(data[..NONCE_SIZE], data[NONCE_SIZE..])
        case None => Err(InvalidCiphertext)
        case Some(plain) => if |plain| <= cap then Ok(plain) else Err(CapacityTooSmall)
    }
  }

  /** Decrypt undoes Encrypt whenever the plaintext fits the target, and the cost is exactly 40 bytes. */
  lemma EncryptRoundTrip(e: Cipher, nonce: Nonce, data: seq<byte>, cap: nat, cap': nat)
    requires e.Lawful() && NONCE_SIZE + |data| + TAG_SIZE <= cap && |data| <= cap'
    ensures e.Encrypt(nonce, data, cap).Ok?
    ensures var c := e.Encrypt(nonce, data, cap).value;
            |c| == |data| + NONCE_SIZE + TAG_SIZE && e.Decrypt(c, cap') == Ok(data)
  {
    var c := nonce + e.seal(nonce, data);
    assert c[..NONCE_SIZE] == nonce && c[NONCE_SIZE..] == e.seal(nonce, data);
  }

  /** Decompress undoes every successful Compress of a non-empty input that fits the target. */
  lemma CompressRoundTrip(c: Compressor, data: seq<byte>, cap: nat, cap': nat)
    requires c.Lawful() && 0 < |data| <= cap' && c.Compress(data, cap).Ok?
    ensures c.Decompress(c.Compress(data, cap).value, cap') == Ok(data)
  {
    assert c.decode(c.encode(data)) == Some(data);
  }

  /** The laws have a model: the identity compressor and a cipher that only appends a blank tag. */
  lemma LawsAreSatisfiable() returns (c: Compressor, e: Cipher)
    ensures c.Lawful() && e.Lawful()
  {
    c := Compressor((d: seq<byte>) => d, (d: seq<byte>) => Some(d));
    var tag: seq<byte> := seq(TAG_SIZE, _ => 0);
    e := Cipher((n: Nonce, d: seq<byte>) => d + tag,
                (n: Nonce, d: seq<byte>) => if |d| < TAG_SIZE then None else Some(d[..|d| - TAG_SIZE]));
    forall n: Nonce, d: seq<byte>
      ensures |e.seal(n, d)| == |d| + TAG_SIZE && e.open(n, e.seal(n, d)) == Some(d)
    {
      assert (d + tag)[..|d|] == d;
    }
  }

  /** Encrypt fails exactly for lack of room, Compress likewise. */
  lemma CapacityIff(c: Compressor, e: Cipher, nonce: Nonce, data: seq<byte>, cap: nat)
    requires c.Lawful() && e.Lawful()
    ensures e.Encrypt(nonce, data, cap).Err? <==> cap < |data| + 40
    ensures |data| > 0 ==> (c.Compress(data, cap).Err? <==> cap < |data| + 17)
    ensures |data| > 0 && cap >= |data| + 17 ==> c.Compress(data, cap) == Ok(c.encode(data))
  {
    assert |data| > 0 ==> |c.encode(data)| > 0;
  }

  /** Decrypt accepts exactly what opens under its first 24 bytes and fits, Decompress exactly what decodes and fits. */
  lemma DecodeIff(c: Compressor, e: Cipher, data: seq<byte>, cap: nat, plain: seq<byte>)
    ensures e.Decrypt(data, cap) == Ok(plain)
       <==> |data| >= 24 && e.open(data[..24], data[24..]) == Some(plain) && |plain| <= cap
    ensures c.Decompress(data, cap) == Ok(plain)
       <==> |data| > 0 && c.decode(data) == Some(plain) && 0 < |plain| <= cap
  {
  }
}
