/** The hash input of a whole router: IPv4 prefixes followed by IPv6 prefixes, with nothing in between. */
module FamilyHash {
  import opened Bytes
  import opened Prefixes
  import opened Tables
  import opened RouteHash
  import opened Router

  ghost predicate Within(t: Routes, l4: set<nat>, l6: set<nat>) { LengthsIn(t.v4, l4) && LengthsIn(t.v6, l6) }

  ghost predicate SameKeys(t: Routes, u: Routes) { t.v4.Keys == u.v4.Keys && t.v6.Keys == u.v6.Keys }

  /** Among routers whose prefixes have only these lengths, the hash input identifies the tables. */
  ghost predicate IdentifiesBoth(l4: set<nat>, l6: set<nat>) {
    forall t: Routes, u: Routes ::
      Within(t, l4, l6) && Within(u, l4, l6) && t.HashText() == u.HashText() ==> SameKeys(t, u)
  }

  lemma NoKeys(m: Table)
    requires LengthsIn(m, {})
    ensures m.Keys == {} && HashInput(m) == ""
  {
    KeysComplete(m);
    SortedUnique(Keys(m), []);
  }

  /** With one family empty, the hash input of the router is that of the other one. */
  lemma OneFamily(m: Table, empty: Table)
    requires LengthsIn(empty, {})
    ensures Routes(m, empty).HashText() == HashInput(m) == Routes(empty, m).HashText()
  {
    NoKeys(empty);
  }

  lemma NotIdentified(t: Routes, u: Routes, l4: set<nat>, l6: set<nat>)
    requires Within(t, l4, l6) && Within(u, l4, l6) && t.HashText() == u.HashText() && !SameKeys(t, u)
    ensures !IdentifiesBoth(l4, l6)
  {
  }

  /** Two routers with one common length in one family and nothing in the other. */
  lemma SameOneFamily(m: Table, n: Table, none: Table, nothing: Table, lengths: set<nat>)
    requires Uniform(lengths) && LengthsIn(m, lengths) && LengthsIn(n, lengths)
    requires LengthsIn(none, {}) && LengthsIn(nothing, {})
    ensures Routes(m, none).HashText() == Routes(n, nothing).HashText() ==>
              SameKeys(Routes(m, none), Routes(n, nothing))
    ensures Routes(none, m).HashText() == Routes(nothing, n).HashText() ==>
              SameKeys(Routes(none, m), Routes(nothing, n))
  {
    NoKeys(none);
    NoKeys(nothing);
    OneFamily(m, none);
    OneFamily(n, nothing);
    if HashInput(m) == HashInput(n) { UniformIdentifies(m, n, lengths); }
  }

  lemma ConfusedFamily(m: Table, n: Table, none: Table, lengths: set<nat>)
    requires LengthsIn(m, lengths) && LengthsIn(n, lengths) && HashInput(m) == HashInput(n) && m.Keys != n.Keys
    requires LengthsIn(none, {})
    ensures !IdentifiesBoth(lengths, {}) && !IdentifiesBoth({}, lengths)
  {
    OneFamily(m, none);
    OneFamily(n, none);
    NotIdentified(Routes(m, none), Routes(n, none), lengths, {});
    NotIdentified(Routes(none, m), Routes(none, n), {}, lengths);
  }

  /**
    With routes of one family only, the hash input identifies the router exactly if all its prefixes
    have one common length between 1 and 127.
   */
  lemma OneFamilyIff(lengths: set<nat>)
    ensures IdentifiesBoth(lengths, {}) <==> Uniform(lengths)
    ensures IdentifiesBoth({}, lengths) <==> Uniform(lengths)
  {
    if Uniform(lengths) {
      forall t: Routes, u: Routes | Within(t, lengths, {}) && Within(u, lengths, {}) && t.HashText() == u.HashText()
        ensures SameKeys(t, u)
      {
        SameOneFamily(t.v4, u.v4, t.v6, u.v6, lengths);
      }
      forall t: Routes, u: Routes | Within(t, {}, lengths) && Within(u, {}, lengths) && t.HashText() == u.HashText()
        ensures SameKeys(t, u)
      {
        SameOneFamily(t.v6, u.v6, t.v4, u.v4, lengths);
      }
    } else {
      var m, n := Confused(lengths);
      ConfusedFamily(m, n, map[], lengths);
    }
  }

  /** Two tables that the hash input confuses. */
  lemma Confused(lengths: set<nat>) returns (m: Table, n: Table)
    requires !Uniform(lengths)
    ensures LengthsIn(m, lengths) && LengthsIn(n, lengths) && HashInput(m) == HashInput(n) && m.Keys != n.Keys
  {
    IdentifiesIffUniform(lengths);
    m, n :| LengthsIn(m, lengths) && LengthsIn(n, lengths) && HashInput(m) == HashInput(n) && m.Keys != n.Keys;
  }

  /**
    Between the families nothing is marked: any IPv4 table whose prefixes have fewer than 128 bits
    together looks like a single IPv6 route made of those bits.
   */
  lemma AcrossFamilies(m: Table, none: Table)
    requires 0 < |Concat(Keys(m))| < MAX_DEPTH && LengthsIn(none, {})
    ensures var p := Concat(Keys(m));
            Routes(m, none).HashText() == Routes(none, map[p := Nil]).HashText()
  {
    var p := Concat(Keys(m));
    OneKey(p);
    OneConcat(p);
    OneFamily(m, none);
    OneFamily(map[p := Nil], none);
  }

  lemma OneConcat(p: Prefix)
    ensures Concat([p]) == p
  {
    ConcatSnoc([], p);
    assert [] + [p] == [p];
  }

  lemma OneKey(p: Prefix)
    requires |p| < MAX_DEPTH
    ensures Keys(map[p := Nil]) == [p]
  {
    var m: Table := map[p := Nil];
    KeysComplete(m);
    SortedUnique(Keys(m), [p]);
  }

  lemma Across(m: Table, none: Table, l4: set<nat>, l6: set<nat>)
    requires LengthsIn(m, l4) && 0 < |Concat(Keys(m))| < MAX_DEPTH && |Concat(Keys(m))| in l6
    requires LengthsIn(none, {}) && m.Keys != {}
    ensures !IdentifiesBoth(l4, l6)
  {
    AcrossFamilies(m, none);
    NoKeys(none);
    var single: Table := map[Concat(Keys(m)) := Nil];
    assert LengthsIn(single, l6) && LengthsIn(none, l4) && LengthsIn(none, l6);
    NotIdentified(Routes(m, none), Routes(none, single), l4, l6);
  }

  /** So a length that both families use spoils the hash, */
  lemma SharedLength(l4: set<nat>, l6: set<nat>, n: nat)
    requires 0 < n < MAX_DEPTH && n in l4 && n in l6
    ensures !IdentifiesBoth(l4, l6)
  {
    var p := Zeros(n);
    OneKey(p);
    OneConcat(p);
    assert p in map[p := Nil];
    Across(map[p := Nil], map[], l4, l6);
  }

  /** and so do two IPv4 routes next to one IPv6 route of twice their length, such as /32 and /64. */
  lemma DoubleLength(l4: set<nat>, l6: set<nat>, n: nat)
    requires 0 < n && 2 * n < MAX_DEPTH && n in l4 && 2 * n in l6
    ensures !IdentifiesBoth(l4, l6)
  {
    var p, q := Zeros(n - 1) + [false], Zeros(n - 1) + [true];
    BeforeBranches(Zeros(n - 1), p, q);
    TwoKeys(p, q);
    ConcatTwo(p, q);
    assert p in map[p := Nil, q := Nil];
    Across(map[p := Nil, q := Nil], map[], l4, l6);
  }

  // ----- both families in use

  ghost predicate Words(ws: seq<Prefix>, n: nat) { forall i :: 0 <= i < |ws| ==> |ws[i]| == n }

  /** Some bit string is strictly increasing both as words of a bits and as words of b bits. */
  ghost predicate DoublySorted(a: nat, b: nat) {
    exists xs, ys :: ReadsBothWays(xs, ys, a, b)
  }

  ghost predicate ReadsBothWays(xs: seq<Prefix>, ys: seq<Prefix>, a: nat, b: nat) {
    xs != [] && Words(xs, a) && Words(ys, b) && Sorted(xs) && Sorted(ys) && Concat(xs) == Concat(ys)
  }

  lemma {:induction false} WordsLength(ws: seq<Prefix>, n: nat)
    requires Words(ws, n)
    ensures |Concat(ws)| == n * |ws|
  {
    if ws != [] {
      WordsLength(ws[1..], n);
      assert n * |ws| == n + n * |ws[1..]|;
    }
  }

  /** Two lists of words whose texts begin alike, up to the shorter one. */
  lemma SameBeginning(xs: seq<Prefix>, rest: Prefix, zs: seq<Prefix>, more: Prefix, n: nat)
    requires n > 0 && Words(xs, n) && Words(zs, n) && |xs| <= |zs| && Concat(xs) + rest == Concat(zs) + more
    ensures xs == zs[..|xs|] && rest == Concat(zs[|xs|..]) + more
  {
    var front, back := zs[..|xs|], zs[|xs|..];
    assert zs == front + back;
    ConcatAppend(front, back);
    WordsLength(xs, n);
    WordsLength(front, n);
    SplitEqual(Concat(xs), rest, Concat(front), Concat(back), more);
    UniformConcat(xs, front, n);
  }

  lemma SplitEqual(p: Prefix, rest: Prefix, q: Prefix, r: Prefix, more: Prefix)
    requires p + rest == q + r + more && |p| == |q|
    ensures p == q && rest == r + more
  {
    assert p == (p + rest)[..|p|] && q == (q + r + more)[..|p|];
    assert rest == (p + rest)[|p|..] && r + more == (q + r + more)[|p|..];
  }

  lemma PartsSorted(ws: seq<Prefix>, k: nat)
    requires Sorted(ws) && k <= |ws|
    ensures Sorted(ws[..k]) && Sorted(ws[k..])
  {
    var front, back := ws[..k], ws[k..];
    forall i, j | 0 <= i < j < |front| ensures Before(front[i], front[j]) { assert Before(ws[i], ws[j]); }
    forall i, j | 0 <= i < j < |back| ensures Before(back[i], back[j]) { assert Before(ws[k + i], ws[k + j]); }
  }

  lemma CountBack(a: nat, b: nat, x: nat, y: nat, t: nat)
    requires b > 0 && b * y == a * x + b * t
    ensures y >= t && b * (y - t) == a * x
  {
    assert a * x >= 0;
    assert y < t ==> b * y < b * t;
  }

  /** Words of b bits that begin with words of a bits, and end alike, read both ways. */
  lemma Overlap(zs: seq<Prefix>, ys: seq<Prefix>, tail: seq<Prefix>, a: nat, b: nat) returns (front: seq<Prefix>)
    requires b > 0 && Words(zs, a) && Words(ys, b) && Words(tail, b) && Concat(ys) == Concat(zs) + Concat(tail)
    ensures front <= ys && Concat(zs) == Concat(front)
  {
    WordsLength(zs, a);
    WordsLength(ys, b);
    WordsLength(tail, b);
    CountBack(a, b, |zs|, |ys|, |tail|);
    var e := |ys| - |tail|;
    front := ys[..e];
    assert ys == front + ys[e..];
    ConcatAppend(front, ys[e..]);
    WordsLength(front, b);
    SplitEqual(Concat(front), Concat(ys[e..]), Concat(zs), [], Concat(tail));
  }

  /** Two lists of words with the text of two others: the surplus of the first reads as words of the second. */
  lemma Surplus(xs: seq<Prefix>, ys: seq<Prefix>, xs': seq<Prefix>, ys': seq<Prefix>, a: nat, b: nat)
    returns (front: seq<Prefix>)
    requires a > 0 && b > 0 && |xs| <= |xs'| && Words(xs, a) && Words(xs', a) && Words(ys, b) && Words(ys', b)
    requires Concat(xs) + Concat(ys) == Concat(xs') + Concat(ys')
    ensures xs == xs'[..|xs|] && front <= ys && Concat(xs'[|xs|..]) == Concat(front)
    ensures xs'[|xs|..] == [] ==> Concat(ys) == Concat(ys')
  {
    SameBeginning(xs, Concat(ys), xs', Concat(ys'), a);
    var zs := xs'[|xs|..];
    front := Overlap(zs, ys, ys', a, b);
    if zs == [] { assert [] + Concat(ys') == Concat(ys'); }
  }

  /** Without a string that reads both ways there is no surplus. */
  lemma NoSurplus(
    xs: seq<Prefix>, ys: seq<Prefix>, xs': seq<Prefix>, ys': seq<Prefix>, front: seq<Prefix>, a: nat, b: nat)
    requires !DoublySorted(a, b) && |xs| <= |xs'| && Words(xs', a) && Sorted(xs') && Sorted(ys)
    requires b > 0 && Words(ys, b) && Words(ys', b)
    requires xs == xs'[..|xs|] && front <= ys && Concat(xs'[|xs|..]) == Concat(front)
    requires xs'[|xs|..] == [] ==> Concat(ys) == Concat(ys')
    ensures xs == xs' && ys == ys'
  {
    var zs := xs'[|xs|..];
    PartsSorted(xs', |xs|);
    PartsSorted(ys, |front|);
    assert front == ys[..|front|];
    assert zs == [] || ReadsBothWays(zs, front, a, b);
    UniformConcat(ys, ys', b);
  }

  /** So the text of two lists gives both of them back. */
  lemma ReadBack(xs: seq<Prefix>, ys: seq<Prefix>, xs': seq<Prefix>, ys': seq<Prefix>, a: nat, b: nat)
    requires a > 0 && b > 0 && !DoublySorted(a, b) && |xs| <= |xs'|
    requires Words(xs, a) && Words(xs', a) && Words(ys, b) && Words(ys', b) && Sorted(xs') && Sorted(ys)
    requires Concat(xs) + Concat(ys) == Concat(xs') + Concat(ys')
    ensures xs == xs' && ys == ys'
  {
    var front := Surplus(xs, ys, xs', ys', a, b);
    NoSurplus(xs, ys, xs', ys', front, a, b);
  }

  /** A list of prefixes as a table. */
  function TableFrom(ps: seq<Prefix>): Table { map p | p in ps :: Nil }

  lemma KeysOfTable(ps: seq<Prefix>, n: nat)
    requires Sorted(ps) && Words(ps, n) && n < MAX_DEPTH
    ensures Keys(TableFrom(ps)) == ps
  {
    var m := TableFrom(ps);
    KeysComplete(m);
    assert forall p :: p in ps ==> |p| == n;
    SortedUnique(Keys(m), ps);
  }

  lemma DoublySortedBreaks(xs: seq<Prefix>, ys: seq<Prefix>, a: nat, b: nat, none: Table, l4: set<nat>, l6: set<nat>)
    requires a in l4 && b in l6 && a < MAX_DEPTH && b < MAX_DEPTH && ReadsBothWays(xs, ys, a, b)
    requires LengthsIn(none, {})
    ensures !IdentifiesBoth(l4, l6)
  {
    KeysOfTable(xs, a);
    KeysOfTable(ys, b);
    NoKeys(none);
    OneFamily(TableFrom(xs), none);
    OneFamily(TableFrom(ys), none);
    assert xs[0] in TableFrom(xs).Keys;
    NotIdentified(Routes(TableFrom(xs), none), Routes(none, TableFrom(ys)), l4, l6);
  }

  lemma KeysAreWords(m: Table, n: nat)
    requires LengthsIn(m, {n})
    ensures Words(Keys(m), n) && Sorted(Keys(m))
  {
    KeysComplete(m);
    assert forall i :: 0 <= i < |Keys(m)| ==> Keys(m)[i] in Keys(m);
  }

  lemma KeysDecide(m: Table, m': Table, n: nat)
    requires LengthsIn(m, {n}) && LengthsIn(m', {n}) && n < MAX_DEPTH && Keys(m) == Keys(m')
    ensures m.Keys == m'.Keys
  {
    KeysComplete(m);
    KeysComplete(m');
    forall p ensures p in m <==> p in m' {
      assert p in Keys(m) <==> p in m && |p| < MAX_DEPTH;
      assert p in Keys(m') <==> p in m' && |p| < MAX_DEPTH;
    }
  }

  lemma HashTextIs(t: Routes)
    ensures t.HashText() == Text(Concat(Keys(t.v4)) + Concat(Keys(t.v6)))
  {
    TextConcat(Concat(Keys(t.v4)), Concat(Keys(t.v6)));
  }

  lemma TwoWordsIdentify(t: Routes, u: Routes, a: nat, b: nat)
    requires 0 < a < MAX_DEPTH && 0 < b < MAX_DEPTH && !DoublySorted(a, b)
    requires Within(t, {a}, {b}) && Within(u, {a}, {b}) && t.HashText() == u.HashText()
    ensures SameKeys(t, u)
  {
    HashTextIs(t);
    HashTextIs(u);
    var xs, ys, xs', ys' := Keys(t.v4), Keys(t.v6), Keys(u.v4), Keys(u.v6);
    TextInjective(Concat(xs) + Concat(ys), Concat(xs') + Concat(ys'));
    KeysAreWords(t.v4, a);
    KeysAreWords(u.v4, a);
    KeysAreWords(t.v6, b);
    KeysAreWords(u.v6, b);
    if |xs| <= |xs'| {
      ReadBack(xs, ys, xs', ys', a, b);
    } else {
      ReadBack(xs', ys', xs, ys, a, b);
    }
    KeysDecide(t.v4, u.v4, a);
    KeysDecide(t.v6, u.v6, b);
  }

  lemma NotUniform(l4: set<nat>, l6: set<nat>)
    requires !Uniform(l4) || !Uniform(l6)
    ensures !IdentifiesBoth(l4, l6)
  {
    if !Uniform(l4) {
      var m, n := Confused(l4);
      Spoils(m, n, map[], l4, l6);
    } else {
      var m, n := Confused(l6);
      Spoils6(m, n, map[], l4, l6);
    }
  }

  lemma Spoils(m: Table, n: Table, none: Table, l4: set<nat>, l6: set<nat>)
    requires LengthsIn(m, l4) && LengthsIn(n, l4) && HashInput(m) == HashInput(n) && m.Keys != n.Keys
    requires LengthsIn(none, {})
    ensures !IdentifiesBoth(l4, l6)
  {
    OneFamily(m, none);
    OneFamily(n, none);
    NotIdentified(Routes(m, none), Routes(n, none), l4, l6);
  }

  lemma Spoils6(m: Table, n: Table, none: Table, l4: set<nat>, l6: set<nat>)
    requires LengthsIn(m, l6) && LengthsIn(n, l6) && HashInput(m) == HashInput(n) && m.Keys != n.Keys
    requires LengthsIn(none, {})
    ensures !IdentifiesBoth(l4, l6)
  {
    OneFamily(m, none);
    OneFamily(n, none);
    NotIdentified(Routes(none, m), Routes(none, n), l4, l6);
  }

  lemma Identified(t: Routes, u: Routes, l4: set<nat>, l6: set<nat>)
    requires Uniform(l4) && Uniform(l6) && forall a, b :: a in l4 && b in l6 ==> !DoublySorted(a, b)
    requires Within(t, l4, l6) && Within(u, l4, l6) && t.HashText() == u.HashText()
    ensures SameKeys(t, u)
  {
    if l4 == {} {
      SameOneFamily(t.v6, u.v6, t.v4, u.v4, l6);
    } else if l6 == {} {
      SameOneFamily(t.v4, u.v4, t.v6, u.v6, l4);
    } else {
      var a :| a in l4;
      var b :| b in l6;
      assert l4 == {a} && l6 == {b};
      TwoWordsIdentify(t, u, a, b);
    }
  }

  /**
    The hash input of the whole router identifies its tables exactly if each family has one common
    length between 1 and 127, and no bit string is increasing both in words of the one length and in
    words of the other.
   */
  lemma {:induction false} BothFamiliesIff(l4: set<nat>, l6: set<nat>)
    ensures IdentifiesBoth(l4, l6)
       <==> Uniform(l4) && Uniform(l6) && forall a, b :: a in l4 && b in l6 ==> !DoublySorted(a, b)
  {
    if !Uniform(l4) || !Uniform(l6) {
      NotUniform(l4, l6);
    } else if a, b :| a in l4 && b in l6 && DoublySorted(a, b) {
      var xs, ys :| ReadsBothWays(xs, ys, a, b);
      DoublySortedBreaks(xs, ys, a, b, map[], l4, l6);
    } else {
      forall t: Routes, u: Routes | Within(t, l4, l6) && Within(u, l4, l6) && t.HashText() == u.HashText()
        ensures SameKeys(t, u)
      {
        Identified(t, u, l4, l6);
      }
    }
  }

  /** For example, one-bit prefixes next to prefixes of three bits or more are told apart. */
  lemma OneBitWords(b: nat)
    requires b >= 3
    ensures !DoublySorted(1, b)
  {
    if xs, ys :| ReadsBothWays(xs, ys, 1, b) {
      WordsLength(xs, 1);
      WordsLength(ys, b);
      assert |ys| > 0 ==> b * |ys| >= b;
      assert |ys| == 0 ==> b * |ys| == 0;
      assert |xs| >= 3;
      assert Before(xs[0], xs[1]) && Before(xs[1], xs[2]) && Before(xs[0], xs[2]);
      OneBitOrder(xs[0], xs[1]);
      OneBitOrder(xs[1], xs[2]);
    }
  }

  lemma OneBitOrder(p: Prefix, q: Prefix)
    requires |p| == 1 && |q| == 1 && Before(p, q)
    ensures p == [false] && q == [true]
  {
  }
}
