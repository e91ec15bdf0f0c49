/**
  The text a router hashes to summarise its table, and when equal texts mean equal tables.
 */
module RouteHash {
  import opened Bytes
  import opened Prefixes
  import opened Tables

  /** A prefix as the traversal spells it: one '0' or '1' per bit. */
  function Text(p: Prefix): (s: string)
    ensures |s| == |p|
    ensures forall i :: 0 <= i < |p| ==> s[i] == if p[i] then '1' else '0'
  {
    seq(|p|, i requires 0 <= i < |p| => if p[i] then '1' else '0')
  }

  /** What collectMD5 writes for one family: the live prefixes back to back, with no separator. */
  function HashInput(m: Table): string { Text(Concat(Keys(m))) }

  lemma TextInjective(p: Prefix, q: Prefix)
    requires Text(p) == Text(q)
    ensures p == q
  {
    assert |p| == |q|;
    forall i | 0 <= i < |p| ensures p[i] == q[i] {
      assert Text(p)[i] == Text(q)[i];
    }
  }

  lemma TextConcat(p: Prefix, q: Prefix)
    ensures Text(p + q) == Text(p) + Text(q)
  {
  }

  lemma ConcatText(a: seq<Prefix>, b: seq<Prefix>)
    ensures Text(Concat(a + b)) == Text(Concat(a)) + Text(Concat(b))
  {
    ConcatAppend(a, b);
    TextConcat(Concat(a), Concat(b));
  }

  lemma OneText(p: Prefix)
    ensures Text(Concat([p])) == Text(p)
  {
    ConcatSnoc([], p);
    assert [] + [p] == [p];
  }

  /** The text of a subtree is that of its node followed by those of its branches. */
  lemma EnumerateText(m: Table, p: Prefix, room: nat)
    requires room > 0
    ensures Text(Concat(Enumerate(m, p, room)))
         == (if p in m then Text(p) else "")
            + Text(Concat(Enumerate(m, p + [false], room - 1)))
            + Text(Concat(Enumerate(m, p + [true], room - 1)))
  {
    var here := if p in m then [p] else [];
    var zeros, ones := Enumerate(m, p + [false], room - 1), Enumerate(m, p + [true], room - 1);
    assert Text(Concat(here)) == if p in m then Text(p) else "" by {
      OneText(p);
    }
    ConcatText(here + zeros, ones);
    ConcatText(here, zeros);
  }

  /** The same text, written out branch by branch. */
  function TextBelow(m: Table, p: Prefix, room: nat): string
    decreases room, |m|
  {
    if room == 0 then ""
    else (if p in m then Text(p) else "") + TextBelow(m, p + [false], room - 1) + TextBelow(m, p + [true], room - 1)
  }

  lemma {:induction false} TextBelowIs(m: Table, p: Prefix, room: nat)
    ensures TextBelow(m, p, room) == Text(Concat(Enumerate(m, p, room)))
    decreases room
  {
    if room > 0 {
      TextBelowIs(m, p + [false], room - 1);
      TextBelowIs(m, p + [true], room - 1);
      EnumerateText(m, p, room);
    }
  }

  /** The hash input depends on nothing but the live prefixes shorter than 128 bits. */
  lemma HashInputOfKeys(m: Table, n: Table)
    requires forall q :: |q| < MAX_DEPTH ==> (q in m <==> q in n)
    ensures Keys(m) == Keys(n) && HashInput(m) == HashInput(n)
  {
    KeysComplete(m);
    KeysComplete(n);
    SortedUnique(Keys(m), Keys(n));
  }

  /** Lists of equally long, non-empty pieces can be read back from their concatenation. */
  lemma {:induction false} UniformConcat(a: seq<Prefix>, b: seq<Prefix>, len: nat)
    requires len > 0
    requires forall i :: 0 <= i < |a| ==> |a[i]| == len
    requires forall i :: 0 <= i < |b| ==> |b[i]| == len
    requires Concat(a) == Concat(b)
    ensures a == b
  {
    if a == [] {
      assert |Concat(b)| == 0;
    } else {
      assert |Concat(a)| >= len;
      assert a[0] == Concat(a)[..len] && Concat(a[1..]) == Concat(a)[len..];
      assert b != [];
      assert b[0] == Concat(b)[..len] && Concat(b[1..]) == Concat(b)[len..];
      UniformConcat(a[1..], b[1..], len);
    }
  }

  ghost predicate LengthsIn(m: Table, lengths: set<nat>) {
    forall p :: p in m ==> |p| in lengths
  }

  /** Among tables whose prefixes have only these lengths, the hash input identifies the table. */
  ghost predicate Identifies(lengths: set<nat>) {
    forall m: Table, n: Table ::
      LengthsIn(m, lengths) && LengthsIn(n, lengths) && HashInput(m) == HashInput(n) ==> m.Keys == n.Keys
  }

  /** One length, neither 0 nor out of the traversal's reach. */
  predicate Uniform(lengths: set<nat>) {
    (forall a :: a in lengths ==> 0 < a < MAX_DEPTH) && (forall a, b :: a in lengths && b in lengths ==> a == b)
  }

  lemma {:induction false} UniformIdentifies(m: Table, n: Table, lengths: set<nat>)
    requires Uniform(lengths) && LengthsIn(m, lengths) && LengthsIn(n, lengths) && HashInput(m) == HashInput(n)
    ensures m.Keys == n.Keys
  {
    KeysComplete(m);
    KeysComplete(n);
    TextInjective(Concat(Keys(m)), Concat(Keys(n)));
    if lengths == {} {
      assert m.Keys == {} && n.Keys == {};
    } else {
      var len :| len in lengths;
      forall p | p in Keys(m) || p in Keys(n) ensures |p| == len {}
      UniformConcat(Keys(m), Keys(n), len);
      forall p ensures p in m <==> p in n {
        assert p in Keys(m) <==> p in m && |p| < MAX_DEPTH;
        assert p in Keys(n) <==> p in n && |p| < MAX_DEPTH;
      }
    }
  }

  function Zeros(k: nat): (p: Prefix)
    ensures |p| == k && forall i :: 0 <= i < k ==> !p[i]
  {
    seq(k, _ => false)
  }

  /** A default route, or one of 128 bits and more, leaves no trace in the hash input. */
  lemma Invisible(len: nat)
    requires len == 0 || len >= MAX_DEPTH
    ensures HashInput(map[Zeros(len) := Nil]) == HashInput(map[])
  {
    var m: Table := map[Zeros(len) := Nil];
    KeysComplete(m);
    KeysComplete(map[]);
    if len == 0 {
      SortedUnique(Keys(m), [[]]);
    } else {
      SortedUnique(Keys(m), []);
    }
    SortedUnique(Keys(map[]), []);
  }

  /** The keys of a two-route table, in order. */
  lemma TwoKeys(p: Prefix, q: Prefix)
    requires Before(p, q) && |p| < MAX_DEPTH && |q| < MAX_DEPTH
    ensures Keys(map[p := Nil, q := Nil]) == [p, q]
  {
    var m: Table := map[p := Nil, q := Nil];
    KeysComplete(m);
    SortedUnique(Keys(m), [p, q]);
  }

  lemma ConcatTwo(p: Prefix, q: Prefix)
    ensures Concat([p, q]) == p + q
  {
    assert [p, q] == [p] + [q];
    ConcatSnoc([p], q);
    ConcatSnoc([], p);
    assert [] + [p] == [p];
  }

  /** Two different tables with routes of lengths a and b that no hash of this input can tell apart. */
  lemma Collision(a: nat, b: nat) returns (m: Table, n: Table)
    requires 0 < a < b < MAX_DEPTH
    ensures LengthsIn(m, {a, b}) && LengthsIn(n, {a, b}) && m.Keys != n.Keys && HashInput(m) == HashInput(n)
  {
    var p, q := Zeros(a), Zeros(b - 1) + [true];
    var p', q' := Zeros(b), Zeros(a - 1) + [true];
    m, n := map[p := Nil, q := Nil], map[p' := Nil, q' := Nil];
    BeforeExtension(p, q);
    BeforeBranches(Zeros(a - 1), p', q');
    TwoKeys(p, q);
    TwoKeys(p', q');
    ConcatTwo(p, q);
    ConcatTwo(p', q');
    assert p + q == p' + q';
    assert !p[a - 1] && q'[a - 1];
    assert p in m && p !in n;
  }

  lemma NotIdentified(m: Table, n: Table, lengths: set<nat>)
    requires LengthsIn(m, lengths) && LengthsIn(n, lengths) && HashInput(m) == HashInput(n) && m.Keys != n.Keys
    ensures !Identifies(lengths)
  {
  }

  /** A length outside 1..127 alone is enough to spoil the hash. */
  lemma InvisibleLength(len: nat, lengths: set<nat>)
    requires len in lengths && !(0 < len < MAX_DEPTH)
    ensures !Identifies(lengths)
  {
    var m: Table := map[Zeros(len) := Nil];
    Invisible(len);
    assert Zeros(len) in m.Keys;
    NotIdentified(m, map[], lengths);
  }

  lemma TwoLengths(a: nat, b: nat, lengths: set<nat>)
    requires a in lengths && b in lengths && 0 < a < b < MAX_DEPTH
    ensures !Identifies(lengths)
  {
    var m, n := Collision(a, b);
    NotIdentified(m, n, lengths);
  }

  lemma OneLength(lengths: set<nat>)
    requires Uniform(lengths)
    ensures Identifies(lengths)
  {
    forall m: Table, n: Table | LengthsIn(m, lengths) && LengthsIn(n, lengths) && HashInput(m) == HashInput(n)
      ensures m.Keys == n.Keys
    {
      UniformIdentifies(m, n, lengths);
    }
  }

  /**
    Equal hash inputs mean equal tables exactly when all routes have one and the same length
    between 1 and 127. The /32 host routes that the server registers are such a family.
   */
  lemma IdentifiesIffUniform(lengths: set<nat>)
    ensures Identifies(lengths) <==> Uniform(lengths)
  {
    if Uniform(lengths) {
      OneLength(lengths);
    } else if a :| a in lengths && !(0 < a < MAX_DEPTH) {
      InvisibleLength(a, lengths);
    } else {
      var a, b :| a in lengths && b in lengths && a < b;
      TwoLengths(a, b, lengths);
    }
  }
}
