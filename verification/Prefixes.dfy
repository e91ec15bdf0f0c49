/** Addresses as bit strings: the bits of a byte, packing and unpacking, and masking. */
module Prefixes {
  import opened Bytes

  type Prefix = seq<bool>

  function Pow2(k: nat): (r: nat)
    ensures r > 0
  {
    if k == 0 then 1 else 2 * Pow2(k - 1)
  }

  /** The low k bits of n, most significant first. */
  function Binary(n: nat, k: nat): (r: seq<bool>)
    ensures |r| == k
  {
    if k == 0 then [] else Binary(n / 2, k - 1) + [n % 2 == 1]
  }

  /** n >> k */
  function Shr(n: nat, k: nat): nat { if k == 0 then n else Shr(n / 2, k - 1) }

  /** Bit i of Binary is a shift and a mask, as the code computes it. */
  lemma {:induction false} BinaryIsShift(n: nat, k: nat, i: nat)
    requires i < k
    ensures Binary(n, k)[i] == (Shr(n, k - 1 - i) % 2 == 1)
  {
    if i < k - 1 {
      BinaryIsShift(n / 2, k - 1, i);
    }
  }

  function Value(x: seq<bool>): (n: nat)
    ensures n < Pow2(|x|)
  {
    if x == [] then 0 else 2 * Value(x[..|x| - 1]) + if x[|x| - 1] then 1 else 0
  }

  lemma {:induction false} BinaryOfValue(x: seq<bool>)
    ensures Binary(Value(x), |x|) == x
  {
    if x != [] {
      BinaryOfValue(x[..|x| - 1]);
    }
  }

  lemma {:induction false} ValueOfBinary(n: nat, k: nat)
    requires n < Pow2(k)
    ensures Value(Binary(n, k)) == n
  {
    if k > 0 {
      ValueOfBinary(n / 2, k - 1);
      assert Binary(n, k)[..k - 1] == Binary(n / 2, k - 1);
    }
  }

  lemma Pow2Of8()
    ensures Pow2(8) == 256
  {
    assert Pow2(4) == 16;
  }

  /** The bits of a byte, most significant first. */
  function BitsOf(b: byte): (r: seq<bool>)
    ensures |r| == 8
  {
    Binary(b, 8)
  }

  function ByteOf(x: seq<bool>): byte
    requires |x| == 8
  {
    Pow2Of8();
    Value(x)
  }

  lemma ByteRoundTrip(b: byte)
    ensures ByteOf(BitsOf(b)) == b
  {
    Pow2Of8();
    ValueOfBinary(b, 8);
  }

  lemma BitsRoundTrip(x: seq<bool>)
    requires |x| == 8
    ensures BitsOf(ByteOf(x)) == x
  {
    BinaryOfValue(x);
  }

  /** b |= 1 << (7 - i) */
  function OrBit(b: byte, i: nat): byte
    requires i < 8
  {
    ByteOf(BitsOf(b)[i := true])
  }

  /** b &= ^(0xFF >> n): keeps the first n bits. */
  function MaskTail(b: byte, n: nat): byte
    requires n <= 8
  {
    ByteOf(seq(8, i requires 0 <= i < 8 => i < n && BitsOf(b)[i]))
  }

  lemma MaskTailIdle(b: byte, n: nat)
    requires n <= 8 && forall i :: n <= i < 8 ==> !BitsOf(b)[i]
    ensures MaskTail(b, n) == b
  {
    assert seq(8, i requires 0 <= i < 8 => i < n && BitsOf(b)[i]) == BitsOf(b);
    ByteRoundTrip(b);
  }

  /** Bit i of an address. */
  function BitAt(ip: seq<byte>, i: nat): bool
    requires i < 8 * |ip|
  {
    BitsOf(ip[i / 8])[i % 8]
  }

  function Bits(ip: seq<byte>): (r: Prefix)
    ensures |r| == 8 * |ip|
    ensures forall i :: 0 <= i < |r| ==> r[i] == BitAt(ip, i)
  {
    seq(8 * |ip|, i requires 0 <= i < 8 * |ip| => BitAt(ip, i))
  }

  /** An address is determined by its bits. */
  lemma BitsInjective(a: seq<byte>, b: seq<byte>)
    requires Bits(a) == Bits(b)
    ensures a == b
  {
    assert |a| == |b|;
    forall k | 0 <= k < |a| ensures a[k] == b[k] {
      var x, y := BitsOf(a[k]), BitsOf(b[k]);
      forall i | 0 <= i < 8 ensures x[i] == y[i] {
        assert Bits(a)[8 * k + i] == x[i] && Bits(b)[8 * k + i] == y[i];
      }
      assert x == y;
      ByteRoundTrip(a[k]);
      ByteRoundTrip(b[k]);
    }
  }

  /** The prefix followed by zero host bits, up to a width in bytes. */
  function Padded(p: Prefix, width: nat): (r: Prefix)
    requires |p| <= 8 * width
    ensures |r| == 8 * width && r[..|p|] == p
  {
    var r := p + seq(8 * width - |p|, _ => false);
    assert r[..|p|] == p;
    r
  }

  function Pack(x: Prefix, width: nat): (ip: seq<byte>)
    requires |x| == 8 * width
    ensures |ip| == width
  {
    seq(width, k requires 0 <= k < width => ByteOf(x[8 * k..8 * k + 8]))
  }

  lemma BitsOfPack(x: Prefix, width: nat)
    requires |x| == 8 * width
    ensures Bits(Pack(x, width)) == x
  {
    forall i | 0 <= i < |x| ensures Bits(Pack(x, width))[i] == x[i] {
      var k := i / 8;
      BitsRoundTrip(x[8 * k..8 * k + 8]);
      assert x[8 * k..8 * k + 8][i % 8] == x[i];
    }
  }

  /** The network address of a prefix. */
  function Network(p: Prefix, width: nat): (ip: seq<byte>)
    requires |p| <= 8 * width
    ensures |ip| == width
  {
    Pack(Padded(p, width), width)
  }

  lemma NetworkBits(p: Prefix, width: nat)
    requires |p| <= 8 * width
    ensures Bits(Network(p, width)) == Padded(p, width)
    ensures Bits(Network(p, width))[..|p|] == p
  {
    BitsOfPack(Padded(p, width), width);
  }
}
