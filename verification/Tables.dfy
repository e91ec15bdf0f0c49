/**
  Routing tables as plain maps from bit prefixes to targets: longest match, the order in which
  they are enumerated, and the text that is hashed to compare two of them.
 */
module Tables {
  import opened Bytes
  import opened Prefixes

  /** A route target: Go's `any`, which may be nil. */
  datatype Any = Nil | Dst(id: nat)

  type Table = map<Prefix, Any>

  /** The match among the first k + 1 prefixes of an address, longest first. */
  function Best(m: Table, a: Prefix, k: nat): (r: Option<Any>)
    requires k <= |a|
    ensures r.None? <==> forall j :: 0 <= j <= k ==> a[..j] !in m
  {
    if a[..k] in m then Some(m[a[..k]])
    else if k == 0 then None
    else Best(m, a, k - 1)
  }

  function LongestMatch(m: Table, a: Prefix): Option<Any> { Best(m, a, |a|) }

  /** Section 5.1 of RFC 4632: of the prefixes that match, the longest one wins. */
  lemma {:induction false} BestIsLongest(m: Table, a: Prefix, k: nat, j: nat)
    requires j <= k <= |a| && a[..j] in m && forall i :: j < i <= k ==> a[..i] !in m
    ensures Best(m, a, k) == Some(m[a[..j]])
  {
    if j < k {
      BestIsLongest(m, a, k - 1, j);
    }
  }

  /** Extending the range by lengths that match nothing changes nothing. */
  lemma {:induction false} BestIgnores(m: Table, a: Prefix, j: nat, k: nat)
    requires j <= k <= |a| && forall i :: j < i <= k ==> a[..i] !in m
    ensures Best(m, a, k) == Best(m, a, j)
  {
    if j < k {
      BestIgnores(m, a, j, k - 1);
    }
  }

  // ----- enumeration

  /** The depth at which the traversals stop; a prefix of this length or more is never visited. */
  const MAX_DEPTH := 128

  /** Live prefixes that extend p by fewer than `room` bits: node first, then the 0 branch, then the 1 branch. */
  function Enumerate(m: Table, p: Prefix, room: nat): seq<Prefix>
    decreases room, |m|
  {
    if room == 0 then []
    else (if p in m then [p] else []) + Enumerate(m, p + [false], room - 1) + Enumerate(m, p + [true], room - 1)
  }

  function Keys(m: Table): seq<Prefix> { Enumerate(m, [], MAX_DEPTH) }

  /** Where a list that extends p splits into the node itself and its two branches. */
  lemma ExtendCases(p: Prefix, q: Prefix)
    ensures p <= q <==> q == p || p + [false] <= q || p + [true] <= q
  {
    if p <= q && p != q {
      assert if q[|p|] then p + [true] <= q else p + [false] <= q;
    }
  }

  lemma {:induction false} EnumerateMembers(m: Table, p: Prefix, room: nat, q: Prefix)
    ensures q in Enumerate(m, p, room) <==> q in m && p <= q && |q| < |p| + room
    decreases room
  {
    if room > 0 {
      EnumerateMembers(m, p + [false], room - 1, q);
      EnumerateMembers(m, p + [true], room - 1, q);
      ExtendCases(p, q);
    }
  }

  /** Where no live prefix extends p there is nothing to visit. */
  lemma {:induction false} EnumerateNothing(m: Table, p: Prefix, room: nat)
    requires forall q :: q in m ==> !(p <= q)
    ensures Enumerate(m, p, room) == []
    decreases room
  {
    if room > 0 {
      assert p <= p;
      forall q | q in m ensures !(p + [false] <= q) && !(p + [true] <= q) {
        ExtendCases(p, q);
      }
      EnumerateNothing(m, p + [false], room - 1);
      EnumerateNothing(m, p + [true], room - 1);
    }
  }

  /** Prefix order: a prefix comes before its extensions, 0 before 1. */
  predicate Before(p: Prefix, q: Prefix) {
    q != [] && (p == [] || if p[0] == q[0] then Before(p[1..], q[1..]) else q[0])
  }

  lemma {:induction false} BeforeIrreflexive(p: Prefix)
    ensures !Before(p, p)
  {
    if p != [] { BeforeIrreflexive(p[1..]); }
  }

  lemma {:induction false} BeforeTransitive(p: Prefix, q: Prefix, r: Prefix)
    requires Before(p, q) && Before(q, r)
    ensures Before(p, r)
  {
    if p != [] && p[0] == q[0] && q[0] == r[0] {
      BeforeTransitive(p[1..], q[1..], r[1..]);
    }
  }

  lemma {:induction false} BeforeExtension(p: Prefix, q: Prefix)
    requires p <= q && p != q
    ensures Before(p, q)
  {
    if p != [] { BeforeExtension(p[1..], q[1..]); }
  }

  lemma {:induction false} BeforeBranches(p: Prefix, q: Prefix, r: Prefix)
    requires p + [false] <= q && p + [true] <= r
    ensures Before(q, r)
  {
    if p != [] {
      assert (p + [false])[1..] == p[1..] + [false] && (p + [true])[1..] == p[1..] + [true];
      BeforeBranches(p[1..], q[1..], r[1..]);
    }
  }

  ghost predicate Sorted(s: seq<Prefix>) {
    forall i, j :: 0 <= i < j < |s| ==> Before(s[i], s[j])
  }

  /** Enumeration is strictly ascending, so nothing is visited twice. */
  lemma {:induction false} EnumerateSorted(m: Table, p: Prefix, room: nat)
    ensures Sorted(Enumerate(m, p, room))
    decreases room
  {
    if room > 0 {
      var here := if p in m then [p] else [];
      var zeros, ones := Enumerate(m, p + [false], room - 1), Enumerate(m, p + [true], room - 1);
      EnumerateSorted(m, p + [false], room - 1);
      EnumerateSorted(m, p + [true], room - 1);
      forall x | x in zeros ensures p + [false] <= x && Before(p, x) {
        EnumerateMembers(m, p + [false], room - 1, x);
        BeforeExtension(p, x);
      }
      forall y | y in ones ensures p + [true] <= y && Before(p, y) {
        EnumerateMembers(m, p + [true], room - 1, y);
        BeforeExtension(p, y);
      }
      forall x, y | x in zeros && y in ones ensures Before(x, y) {
        BeforeBranches(p, x, y);
      }
      SortedConcat(zeros, ones);
      SortedConcat(here, zeros + ones);
      assert here + zeros + ones == here + (zeros + ones);
    }
  }

  lemma SortedConcat(a: seq<Prefix>, b: seq<Prefix>)
    requires Sorted(a) && Sorted(b) && forall x, y :: x in a && y in b ==> Before(x, y)
    ensures Sorted(a + b)
  {
  }

  /** A strictly sorted list is determined by its members. */
  lemma {:induction false} SortedUnique(a: seq<Prefix>, b: seq<Prefix>)
    requires Sorted(a) && Sorted(b) && forall x :: x in a <==> x in b
    ensures a == b
  {
    assert (a != [] ==> a[0] in a) && (b != [] ==> b[0] in b);
    if a != [] && b != [] {
      assert a[0] in b && b[0] in a;
      if a[0] != b[0] {
        BeforeTransitive(a[0], b[0], a[0]);
        BeforeIrreflexive(a[0]);
        assert false;
      }
      forall x ensures x in a[1..] <==> x in b[1..] {
        TailMembers(a, x);
        TailMembers(b, x);
      }
      SortedUnique(a[1..], b[1..]);
    }
  }

  lemma TailMembers(a: seq<Prefix>, x: Prefix)
    requires a != [] && Sorted(a)
    ensures x in a[1..] <==> x in a && x != a[0]
  {
    BeforeIrreflexive(a[0]);
  }

  /** Keys lists every live prefix shorter than 128 bits exactly once, in prefix order; nothing else. */
  lemma KeysComplete(m: Table)
    ensures Sorted(Keys(m))
    ensures forall q :: q in Keys(m) <==> q in m && |q| < 128
    ensures forall i, j :: 0 <= i < j < |Keys(m)| ==> Keys(m)[i] != Keys(m)[j]
  {
    EnumerateSorted(m, [], MAX_DEPTH);
    forall q ensures q in Keys(m) <==> q in m && |q| < MAX_DEPTH {
      EnumerateMembers(m, [], MAX_DEPTH, q);
    }
    forall i, j | 0 <= i < j < |Keys(m)| ensures Keys(m)[i] != Keys(m)[j] {
      BeforeIrreflexive(Keys(m)[i]);
    }
  }
}
