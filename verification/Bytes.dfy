/** Bytes, fixed-width integers and the big-endian integer encoding used on every wire format. */
module Bytes {

  type byte = b: int | 0 <= b < 0x100
  type uint16 = n: int | 0 <= n < 0x1_0000
  type uint32 = n: int | 0 <= n < 0x1_0000_0000

  datatype Option<+T> = None | Some(value: T)

  function Uint16(b: seq<byte>): uint16
    requires |b| == 2
  {
    b[0] as int * 0x100 + b[1] as int
  }

  function PutUint16(n: uint16): (b: seq<byte>)
    ensures |b| == 2 && Uint16(b) == n
  {
    [n / 0x100, n % 0x100]
  }

  function Uint32(b: seq<byte>): uint32
    requires |b| == 4
  {
    Uint16(b[..2]) * 0x1_0000 + Uint16(b[2..])
  }

  function PutUint32(n: uint32): (b: seq<byte>)
    ensures |b| == 4 && Uint32(b) == n
  {
    var b := PutUint16(n / 0x1_0000) + PutUint16(n % 0x1_0000);
    assert b[..2] == PutUint16(n / 0x1_0000) && b[2..] == PutUint16(n % 0x1_0000);
    b
  }

  lemma PutOfUint16(b: seq<byte>)
    requires |b| == 2
    ensures PutUint16(Uint16(b)) == b
  {
  }

  lemma PutOfUint32(b: seq<byte>)
    requires |b| == 4
    ensures PutUint32(Uint32(b)) == b
  {
    PutOfUint16(b[..2]);
    PutOfUint16(b[2..]);
    assert b == b[..2] + b[2..];
  }

  /** Concatenation of a list of sequences. */
  function Concat<T>(parts: seq<seq<T>>): seq<T> {
    if parts == [] then [] else parts[0] + Concat(parts[1..])
  }

  lemma {:induction false} ConcatAppend<T>(a: seq<seq<T>>, b: seq<seq<T>>)
    ensures Concat(a + b) == Concat(a) + Concat(b)
  {
    if a == [] {
      assert a + b == b;
    } else {
      assert (a + b)[1..] == a[1..] + b;
      ConcatAppend(a[1..], b);
    }
  }

  /** Concat read from the right, the way a loop builds it. */
  lemma ConcatSnoc<T>(a: seq<seq<T>>, x: seq<T>)
    ensures Concat(a + [x]) == Concat(a) + x
  {
    ConcatAppend(a, [x]);
    assert Concat([x]) == x + Concat([]);
  }

  /** The same behind a prefix, as an output stream grows. */
  lemma ConcatGrow<T>(pre: seq<T>, a: seq<seq<T>>, x: seq<T>)
    ensures pre + Concat(a + [x]) == (pre + Concat(a)) + x
  {
    ConcatSnoc(a, x);
    assert pre + (Concat(a) + x) == (pre + Concat(a)) + x;
  }

  /** Sum of the lengths of a list of sequences. */
  function TotalLen<T>(parts: seq<seq<T>>): nat {
    if parts == [] then 0 else |parts[0]| + TotalLen(parts[1..])
  }

  lemma {:induction false} TotalLenSnoc<T>(a: seq<seq<T>>, x: seq<T>)
    ensures TotalLen(a + [x]) == TotalLen(a) + |x|
  {
    if a == [] {
      assert a + [x] == [x];
    } else {
      assert (a + [x])[1..] == a[1..] + [x];
      TotalLenSnoc(a[1..], x);
    }
  }

  lemma {:induction false} TotalLenPrefix<T>(a: seq<seq<T>>, n: nat)
    requires n <= |a|
    ensures TotalLen(a[..n]) <= TotalLen(a)
  {
    if n > 0 {
      assert a[..n][1..] == a[1..][..n - 1];
      TotalLenPrefix(a[1..], n - 1);
    }
  }

  lemma {:induction false} ConcatLen<T>(parts: seq<seq<T>>)
    ensures |Concat(parts)| == TotalLen(parts)
  {
    if parts != [] {
      ConcatLen(parts[1..]);
    }
  }

  lemma Window(s: seq<byte>, at: nat, n: nat, i: nat, j: nat)
    requires i <= j <= n && at + n <= |s|
    ensures s[at..at + n][i..j] == s[at + i..at + j]
  {
    var a, b := s[at..at + n][i..j], s[at + i..at + j];
    forall k | 0 <= k < j - i ensures a[k] == b[k] {
      assert s[at..at + n][i + k] == s[at + (i + k)];
    }
  }

  lemma Glue(s: seq<byte>, at: nat, mid: nat, end: nat)
    requires at <= mid <= end <= |s|
    ensures s[at..mid] + s[mid..end] == s[at..end]
  {
  }

  lemma ConcatTake<T>(ss: seq<seq<T>>, k: nat)
    requires k < |ss|
    ensures Concat(ss[..k + 1]) == Concat(ss[..k]) + ss[k]
  {
    ConcatSnoc(ss[..k], ss[k]);
    assert ss[..k + 1] == ss[..k] + [ss[k]];
  }

  /** Integers are stored with the most significant byte first. */
  lemma BigEndian(n: uint16, x: uint32)
    ensures PutUint16(n)[0] * 0x100 + PutUint16(n)[1] as int == n
    ensures var b := PutUint32(x);
            b[0] * 0x100_0000 + b[1] * 0x1_0000 + b[2] * 0x100 + b[3] as int == x
  {
  }
}
