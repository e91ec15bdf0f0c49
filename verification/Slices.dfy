/**
  Go slices over shared arrays, and the copying, compressing and encrypting steps that the
  transport performs on them in place. No three-index slice occurs in the source, so the capacity
  of a slice always reaches to the end of its array.
 */
module Slices {
  import opened Bytes
  import opened Codec
  import opened Wire

  datatype Slice = Slice(arr: array<byte>, off: nat, len: nat) {
    predicate InRange() { off + len <= arr.Length }

    function Content(): seq<byte>
      requires InRange()
      reads arr
    {
      arr[off..off + len]
    }
  }

  /** Only positions lo..hi of the array may have changed. */
  twostate predicate ChangedWithin(a: array<byte>, lo: int, hi: int)
    reads a
  {
    forall i :: 0 <= i < a.Length && !(lo <= i < hi) ==> a[i] == old(a[i])
  }

  /** Go's copy: memmove semantics, so overlapping source and target are fine. */
  method Copy(dst: array<byte>, at: nat, src: array<byte>, from: nat, n: nat)
    requires at + n <= dst.Length && from + n <= src.Length
    modifies dst
    ensures dst[at..at + n] == old(src[from..from + n])
    ensures ChangedWithin(dst, at, at + n)
  {
    forall i | 0 <= i < n {
      dst[at + i] := src[from + i];
    }
  }

  method Store(dst: array<byte>, at: nat, s: seq<byte>)
    requires at + |s| <= dst.Length
    modifies dst
    ensures dst[at..at + |s|] == s
    ensures ChangedWithin(dst, at, at + |s|)
  {
    forall i | 0 <= i < |s| {
      dst[at + i] := s[i];
    }
  }

  /** Appends a value to what is already stored in dst[lo..at]. */
  method Extend(dst: array<byte>, lo: nat, at: nat, s: seq<byte>, ghost done: seq<byte>)
    requires lo <= at && at + |s| <= dst.Length && dst[lo..at] == done
    modifies dst
    ensures dst[lo..at + |s|] == done + s
    ensures ChangedWithin(dst, at, at + |s|)
  {
    Store(dst, at, s);
    assert dst[lo..at] == done;
    Glue(dst[..], lo, at, at + |s|);
  }

  /** Appends a copy of src[from..from + n] to what is already stored in dst[lo..at]. */
  method ExtendCopy(dst: array<byte>, lo: nat, at: nat, src: array<byte>, from: nat, n: nat, ghost done: seq<byte>)
    requires lo <= at && at + n <= dst.Length && from + n <= src.Length && src != dst && dst[lo..at] == done
    modifies dst
    ensures dst[lo..at + n] == done + src[from..from + n]
    ensures ChangedWithin(dst, at, at + n)
  {
    Copy(dst, at, src, from, n);
    assert dst[lo..at] == done;
    Glue(dst[..], lo, at, at + n);
  }

  /** Builds type(1) + length(2) + data at `at`, as both layers do before they run. */
  method StoreInner(dst: array<byte>, at: nat, typ: byte, src: Slice, ghost content: seq<byte>)
    requires src.InRange() && at + INNER_HEADER + src.len <= dst.Length && src.Content() == content
    // the three header bytes do not overwrite payload still to be copied
    requires src.arr != dst || at + INNER_HEADER <= src.off || src.off + src.len <= at
    modifies dst
    ensures dst[at..at + INNER_HEADER + src.len] == Inner(Message(typ, content))
    ensures ChangedWithin(dst, at, at + INNER_HEADER + src.len)
  {
    var head := [typ] + PutUint16(src.len % 0x1_0000);
    var mid := at + INNER_HEADER;
    var end := mid + src.len;
    Store(dst, at, head);
    assert src.Content() == content;
    Copy(dst, mid, src.arr, src.off, src.len);
    assert dst[at..mid] == head && dst[mid..end] == content;
    Glue(dst[..], at, mid, end);
  }

  /** The same in a fresh array. */
  method NewInner(typ: byte, src: Slice, ghost content: seq<byte>) returns (temp: Slice)
    requires src.InRange() && src.Content() == content
    ensures fresh(temp.arr) && temp.InRange() && temp.Content() == Inner(Message(typ, content))
  {
    var a := new byte[INNER_HEADER + src.len];
    StoreInner(a, 0, typ, src, content);
    temp := Slice(a, 0, a.Length);
  }

  /** Compress src into everything from `at` on; the two regions must not overlap. */
  method CompressInto(c: Compressor, src: Slice, dst: array<byte>, at: nat, ghost content: seq<byte>)
    returns (r: Result<nat>)
    requires src.InRange() && at <= dst.Length && src.Content() == content
    requires src.arr != dst || src.off + src.len <= at
    modifies dst
    ensures ChangedWithin(dst, at, dst.Length)
    ensures match c.Compress(content, dst.Length - at)
            case Err(e) => r == Err(e)
            case Ok(z) => r == Ok(|z|) && (|z| <= dst.Length - at ==> dst[at..at + |z|] == z)
  {
    var room := dst.Length - at;
    match c.Compress(src.Content(), room)
    case Err(e) => r := Err(e);
    case Ok(z) =>
      Store(dst, at, if |z| <= room then z else z[..room]);
      r := Ok(|z|);
  }

  /** Encrypt src to `at`, relying on capacity beyond the slice's length; no overlap. */
  method EncryptInto(e: Cipher, nonce: Nonce, src: Slice, dst: array<byte>, at: nat, ghost content: seq<byte>)
    returns (r: Result<nat>)
    requires e.Lawful() && src.InRange() && at <= dst.Length && src.Content() == content
    requires src.arr != dst || src.off + src.len <= at
    modifies dst
    ensures match e.Encrypt(nonce, content, dst.Length - at)
            case Err(err) => r == Err(err)
            case Ok(s) => r == Ok(|s|) && at + |s| <= dst.Length && dst[at..at + |s|] == s
    ensures ChangedWithin(dst, at, dst.Length)
  {
    match e.Encrypt(nonce, src.Content(), dst.Length - at)
    case Err(err) => r := Err(err);
    case Ok(s) =>
      Store(dst, at, s);
      r := Ok(|s|);
  }

  /** What a decoder left in dst from `at` on: its bytes, or its error. */
  ghost predicate Decoded(r: Result<nat>, dst: array<byte>, at: nat, plain: Result<seq<byte>>)
    reads dst
  {
    if plain.Err? then r == Err(plain.error)
    else r == Ok(|plain.value|) && at + |plain.value| <= dst.Length && dst[at..at + |plain.value|] == plain.value
  }

  method DecryptInto(e: Cipher, src: Slice, dst: array<byte>, at: nat, ghost content: seq<byte>)
    returns (r: Result<nat>)
    requires src.InRange() && at <= dst.Length && src.Content() == content && src.arr != dst
    modifies dst
    ensures Decoded(r, dst, at, e.Decrypt(content, dst.Length - at))
  {
    var plain := e.Decrypt(src.Content(), dst.Length - at);
    if plain.Err? { return Err(plain.error); }
    Store(dst, at, plain.value);
    r := Ok(|plain.value|);
  }

  method DecompressInto(c: Compressor, src: Slice, dst: array<byte>, at: nat, ghost content: seq<byte>)
    returns (r: Result<nat>)
    requires src.InRange() && at <= dst.Length && src.Content() == content && src.arr != dst
    modifies dst
    ensures Decoded(r, dst, at, c.Decompress(content, dst.Length - at))
  {
    var plain := c.Decompress(src.Content(), dst.Length - at);
    if plain.Err? { return Err(plain.error); }
    Store(dst, at, plain.value);
    r := Ok(|plain.value|);
  }
}
