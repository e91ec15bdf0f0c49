/**
  CIDR text: the printers of the router, and a parser that inverts them.
 */
module Cidr {
  import opened Bytes
  import opened Prefixes

  // ----- numerals

  function Digit(d: nat): char
    requires d < 16
  {
    if d < 10 then '0' + d as char else 'a' + (d - 10) as char
  }

  predicate IsBase(base: nat) { base == 10 || base == 16 }

  /** n in the given base, without leading zeros. */
  function Numeral(n: nat, base: nat): (s: string)
    requires IsBase(base)
    ensures s != []
  {
    if n < base then [Digit(n)] else Numeral(n / base, base) + [Digit(n % base)]
  }

  function DigitValue(c: char): (r: Option<nat>)
    ensures r.Some? ==> r.value < 16
  {
    if '0' <= c <= '9' then Some((c - '0') as nat)
    else if 'a' <= c <= 'f' then Some((c - 'a') as nat + 10)
    else if 'A' <= c <= 'F' then Some((c - 'A') as nat + 10)
    else None
  }

  function ParseNumeral(s: string, base: nat): Option<nat>
    requires IsBase(base)
  {
    if s == [] then None
    else
      var d := DigitValue(s[|s| - 1]);
      if d.None? || d.value >= base then None
      else if |s| == 1 then d
      else match ParseNumeral(s[..|s| - 1], base)
        case None => None
        case Some(n) => Some(n * base + d.value)
  }

  lemma DigitRoundTrip(d: nat)
    requires d < 16
    ensures DigitValue(Digit(d)) == Some(d)
  {
  }

  lemma {:induction false} NumeralRoundTrip(n: nat, base: nat)
    requires IsBase(base)
    ensures ParseNumeral(Numeral(n, base), base) == Some(n)
  {
    DigitRoundTrip(n % base);
    if n >= base {
      var s := Numeral(n, base);
      assert s[..|s| - 1] == Numeral(n / base, base);
      NumeralRoundTrip(n / base, base);
      if base == 10 { assert n / 10 * 10 + n % 10 == n; } else { assert n / 16 * 16 + n % 16 == n; }
    }
  }

  lemma {:induction false} NumeralIsDigits(n: nat, base: nat, c: char)
    requires IsBase(base) && DigitValue(c).None?
    ensures c !in Numeral(n, base)
  {
    DigitRoundTrip(n % base);
    if n >= base {
      NumeralIsDigits(n / base, base, c);
    }
  }

  /** intToString and uint16ToHex: digits are prepended while the number shrinks. */
  method PrintNumeral(n: nat, base: nat) returns (s: string)
    requires IsBase(base)
    ensures s == Numeral(n, base)
  {
    if n == 0 { return "0"; }
    s := "";
    var v: nat := n;
    while v > 0
      invariant Numeral(n, base) == if v == 0 then s else Numeral(v, base) + s
    {
      ghost var before := s;
      s := [Digit(v % base)] + s;
      if v >= base {
        assert Numeral(v, base) + before == Numeral(v / base, base) + s;
      }
      v := v / base;
    }
  }

  // ----- separated lists

  function Split(s: string, sep: char): (r: seq<string>)
    ensures |r| >= 1
  {
    if s == [] then [[]]
    else if s[0] == sep then [[]] + Split(s[1..], sep)
    else
      var r := Split(s[1..], sep);
      [[s[0]] + r[0]] + r[1..]
  }

  function Join(parts: seq<string>, sep: char): string {
    if |parts| == 0 then []
    else if |parts| == 1 then parts[0]
    else parts[0] + [sep] + Join(parts[1..], sep)
  }

  lemma {:induction false} SplitHead(a: string, rest: string, sep: char)
    requires sep !in a
    ensures Split(a + [sep] + rest, sep) == [a] + Split(rest, sep)
  {
    var s := a + [sep] + rest;
    if a == [] {
      assert s[1..] == rest;
    } else {
      assert s[1..] == a[1..] + [sep] + rest;
      SplitHead(a[1..], rest, sep);
      assert [a[0]] + a[1..] == a;
    }
  }

  lemma {:induction false} SplitNone(a: string, sep: char)
    requires sep !in a
    ensures Split(a, sep) == [a]
  {
    if a != [] {
      SplitNone(a[1..], sep);
      assert [a[0]] + a[1..] == a;
    }
  }

  lemma {:induction false} SplitJoin(parts: seq<string>, sep: char)
    requires |parts| >= 1 && forall i :: 0 <= i < |parts| ==> sep !in parts[i]
    ensures Split(Join(parts, sep), sep) == parts
  {
    if |parts| == 1 {
      SplitNone(parts[0], sep);
    } else {
      SplitJoin(parts[1..], sep);
      SplitHead(parts[0], Join(parts[1..], sep), sep);
    }
  }

  lemma {:induction false} JoinAvoids(parts: seq<string>, sep: char, c: char)
    requires c != sep && forall i :: 0 <= i < |parts| ==> c !in parts[i]
    ensures c !in Join(parts, sep)
  {
    if |parts| > 1 {
      JoinAvoids(parts[1..], sep, c);
    }
  }

  /** t has the parts of s, but the last one may be longer and more may follow. */
  ghost predicate Continues(s: seq<string>, t: seq<string>) {
    && 0 < |s| <= |t| && s[|s| - 1] <= t[|s| - 1]
    && forall i :: 0 <= i < |s| - 1 ==> t[i] == s[i]
  }

  lemma ContinuesOn(s: seq<string>, t: seq<string>, c: char)
    requires Continues(s, t)
    ensures Continues([[]] + s, [[]] + t)
    ensures Continues([[c] + s[0]] + s[1..], [[c] + t[0]] + t[1..])
  {
    var s', t' := [[c] + s[0]] + s[1..], [[c] + t[0]] + t[1..];
    assert forall i :: 0 < i < |s| ==> s'[i] == s[i] && t'[i] == t[i];
    if |s| == 1 { assert ([c] + t[0])[..|s[0]| + 1] == [c] + s[0]; }
  }

  /** Splitting a longer text. */
  lemma {:induction false} SplitAppend(a: string, rest: string, sep: char)
    ensures Continues(Split(a, sep), Split(a + rest, sep))
  {
    if a == [] {
      assert [] <= Split(a + rest, sep)[0];
    } else {
      assert (a + rest)[1..] == a[1..] + rest;
      SplitAppend(a[1..], rest, sep);
      ContinuesOn(Split(a[1..], sep), Split(a[1..] + rest, sep), a[0]);
    }
  }

  function Numerals(ns: seq<nat>, base: nat): (r: seq<string>)
    requires IsBase(base)
    ensures |r| == |ns| && forall i :: 0 <= i < |r| ==> r[i] == Numeral(ns[i], base)
  {
    seq(|ns|, i requires 0 <= i < |ns| => Numeral(ns[i], base))
  }

  // ----- addresses

  datatype Family = V4 | V6 {
    function Width(): nat { if V4? then 4 else 16 }
    function Base(): nat { if V4? then 10 else 16 }
    function Separator(): char { if V4? then '.' else ':' }
    function Limit(): nat { if V4? then 0x100 else 0x1_0000 }
    function Any(): string { if V4? then "0.0.0.0/0" else "::/0" }
  }

  /** The numbers an address is printed as: bytes in IPv4, 16-bit groups in IPv6. */
  function Groups(f: Family, ip: seq<byte>): (r: seq<nat>)
    requires |ip| == f.Width()
    ensures |r| == (if f.V4? then 4 else 8) && forall i :: 0 <= i < |r| ==> r[i] < f.Limit()
  {
    if f.V4? then seq(4, i requires 0 <= i < 4 => ip[i] as nat)
    else seq(8, i requires 0 <= i < 8 => ip[2 * i] as nat * 0x100 + ip[2 * i + 1] as nat)
  }

  function Ungroup(f: Family, ns: seq<nat>): (ip: seq<byte>)
    requires |ns| == (if f.V4? then 4 else 8) && forall i :: 0 <= i < |ns| ==> ns[i] < f.Limit()
    ensures |ip| == f.Width()
    ensures forall i :: 0 <= i < |ip| ==> ip[i] == GroupByte(f, ns, i)
  {
    seq(f.Width(), i requires 0 <= i < f.Width() => GroupByte(f, ns, i))
  }

  function GroupByte(f: Family, ns: seq<nat>, i: nat): byte
    requires |ns| == (if f.V4? then 4 else 8) && forall k :: 0 <= k < |ns| ==> ns[k] < f.Limit()
    requires i < f.Width()
  {
    assert f.V4? ==> f.Limit() == 0x100;
    assert f.V4? ==> ns[i] < f.Limit();
    assert !f.V4? ==> ns[i / 2] < f.Limit();
    if f.V4? then ns[i] else if i % 2 == 0 then ns[i / 2] / 0x100 else ns[i / 2] % 0x100
  }

  lemma UngroupGroups(f: Family, ip: seq<byte>)
    requires |ip| == f.Width()
    ensures Ungroup(f, Groups(f, ip)) == ip
  {
    forall i | 0 <= i < |ip| ensures GroupByte(f, Groups(f, ip), i) == ip[i] {
      if f.V6? {
        assert Groups(f, ip)[i / 2] == ip[2 * (i / 2)] as nat * 0x100 + ip[2 * (i / 2) + 1] as nat;
      }
    }
  }

  function AddressText(f: Family, ip: seq<byte>): string
    requires |ip| == f.Width()
  {
    Join(Numerals(Groups(f, ip), f.Base()), f.Separator())
  }

  /** A byte without leading zeros, or up to four hexadecimal digits. */
  function ParseGroup(f: Family, s: string): (r: Option<nat>)
    ensures r.Some? ==> r.value < f.Limit()
  {
    var n := ParseNumeral(s, f.Base());
    if n.None? || n.value >= f.Limit() then None
    else if f.V4? && |s| > 1 && s[0] == '0' then None
    else if f.V6? && |s| > 4 then None
    else n
  }

  function ParseGroups(f: Family, parts: seq<string>): (r: Option<seq<nat>>)
    ensures r.Some? ==> |r.value| == |parts| && forall i :: 0 <= i < |parts| ==> r.value[i] < f.Limit()
  {
    if parts == [] then Some([])
    else
      var n := ParseGroup(f, parts[0]);
      var rest := ParseGroups(f, parts[1..]);
      if n.None? || rest.None? then None else Some([n.value] + rest.value)
  }

  /** Where the first "::" begins. */
  function Gap(s: string): (r: Option<nat>)
    ensures r.Some? ==> r.value + 2 <= |s|
  {
    if |s| < 2 then None
    else if s[0] == ':' && s[1] == ':' then Some(0)
    else match Gap(s[1..])
      case None => None
      case Some(k) => Some(k + 1)
  }

  /** Four bytes in dotted form, as the two groups they stand for. */
  function ParseQuad(s: string): (r: Option<seq<nat>>)
    ensures r.Some? ==> |r.value| == 2 && forall i :: 0 <= i < 2 ==> r.value[i] < V6.Limit()
  {
    var q := ParseGroups(V4, Split(s, '.'));
    if q.None? || |q.value| != 4 then None
    else Some([q.value[0] * 0x100 + q.value[1], q.value[2] * 0x100 + q.value[3]])
  }

  /** Colon-separated groups; the last one of a text may be an IPv4 address in dotted form. */
  function ParseTail(parts: seq<string>, last: bool): (r: Option<seq<nat>>)
    requires parts != []
    ensures r.Some? ==> forall i :: 0 <= i < |r.value| ==> r.value[i] < V6.Limit()
  {
    var n := |parts| - 1;
    if last && '.' in parts[n] then
      var init, quad := ParseGroups(V6, parts[..n]), ParseQuad(parts[n]);
      if init.None? || quad.None? then None else Some(init.value + quad.value)
    else ParseGroups(V6, parts)
  }

  function ColonGroups(s: string, last: bool): (r: Option<seq<nat>>)
    ensures r.Some? ==> forall i :: 0 <= i < |r.value| ==> r.value[i] < V6.Limit()
  {
    if s == "" then Some([]) else ParseTail(Split(s, ':'), last)
  }

  function ZeroGroups(n: nat): (r: seq<nat>)
    ensures |r| == n && forall i :: 0 <= i < n ==> r[i] == 0
  {
    seq(n, _ => 0)
  }

  /** The eight groups of an IPv6 text; one "::" stands for one or more groups of zeros. */
  function ParseColons(s: string): (r: Option<seq<nat>>)
    ensures r.Some? ==> |r.value| == 8 && forall i :: 0 <= i < 8 ==> r.value[i] < V6.Limit()
  {
    match Gap(s)
    case None =>
      var ns := ParseTail(Split(s, ':'), true);
      if ns.None? || |ns.value| != 8 then None else ns
    case Some(k) =>
      var left, right := ColonGroups(s[..k], false), ColonGroups(s[k + 2..], true);
      if left.None? || right.None? || |left.value| + |right.value| > 7 then None
      else Some(left.value + ZeroGroups(8 - |left.value| - |right.value|) + right.value)
  }

  function ParseAddress(s: string): (r: Option<(Family, seq<byte>)>)
    ensures r.Some? ==> |r.value.1| == r.value.0.Width()
  {
    if ':' in s then
      var ns := ParseColons(s);
      if ns.None? then None else Some((V6, Ungroup(V6, ns.value)))
    else
      var ns := ParseGroups(V4, Split(s, '.'));
      if ns.None? || |ns.value| != 4 then None else Some((V4, Ungroup(V4, ns.value)))
  }

  lemma {:induction false} NumeralHead(n: nat)
    ensures Numeral(n, 10)[0] == '0' ==> n == 0
  {
    if n >= 10 {
      assert Numeral(n, 10)[0] == Numeral(n / 10, 10)[0];
      NumeralHead(n / 10);
    }
  }

  lemma NumeralLength(n: nat)
    requires n < 0x1_0000
    ensures |Numeral(n, 16)| <= 4
  {
    var a := n / 16;
    var b := a / 16;
    assert |Numeral(b / 16, 16)| == 1;
    assert |Numeral(b, 16)| <= 2;
    assert |Numeral(a, 16)| <= 3;
  }

  lemma GroupRoundTrip(f: Family, n: nat)
    requires n < f.Limit()
    ensures ParseGroup(f, Numeral(n, f.Base())) == Some(n)
  {
    NumeralRoundTrip(n, f.Base());
    if f.V4? { NumeralHead(n); } else { NumeralLength(n); }
  }

  lemma {:induction false} GroupsRoundTrip(f: Family, ns: seq<nat>)
    requires forall i :: 0 <= i < |ns| ==> ns[i] < f.Limit()
    ensures ParseGroups(f, Numerals(ns, f.Base())) == Some(ns)
  {
    if ns != [] {
      GroupRoundTrip(f, ns[0]);
      GroupsRoundTrip(f, ns[1..]);
      assert Numerals(ns, f.Base())[1..] == Numerals(ns[1..], f.Base());
      assert [ns[0]] + ns[1..] == ns;
    }
  }

  lemma {:induction false} GapSkip(a: string, rest: string)
    requires ':' !in a
    ensures Gap(a + rest).None? <==> Gap(rest).None?
  {
    if a == [] {
      assert a + rest == rest;
    } else {
      GapSkip(a[1..], rest);
      assert (a + rest)[1..] == a[1..] + rest;
    }
  }

  /** Groups joined by single colons leave no gap. */
  lemma {:induction false} NoGap(parts: seq<string>)
    requires forall i :: 0 <= i < |parts| ==> parts[i] != "" && ':' !in parts[i]
    ensures Gap(Join(parts, ':')).None?
  {
    if |parts| == 1 {
      assert parts[0] + [] == parts[0];
      GapSkip(parts[0], []);
    } else if |parts| > 1 {
      var rest := Join(parts[1..], ':');
      NoGap(parts[1..]);
      assert rest[0] == parts[1][0];
      assert ([':'] + rest)[1..] == rest;
      assert Gap([':'] + rest).None?;
      GapSkip(parts[0], [':'] + rest);
      assert parts[0] + [':'] + rest == parts[0] + ([':'] + rest);
    }
  }

  lemma {:induction false} GapAt(a: string, rest: string)
    requires Gap(a).None? && (a != "" ==> a[|a| - 1] != ':')
    ensures Gap(a + "::" + rest) == Some(|a|)
  {
    var s := a + "::" + rest;
    if a != "" {
      assert |a| > 1 ==> s[1] == a[1];
      assert s[1..] == a[1..] + "::" + rest;
      GapAt(a[1..], rest);
    }
  }

  function ColonText(ns: seq<nat>): string { Join(Numerals(ns, 16), ':') }

  lemma ColonParts(ns: seq<nat>)
    requires forall i :: 0 <= i < |ns| ==> ns[i] < V6.Limit()
    ensures forall last :: ColonGroups(ColonText(ns), last) == Some(ns)
    ensures Gap(ColonText(ns)).None?
    ensures ColonText(ns) != "" ==> ColonText(ns)[|ColonText(ns)| - 1] != ':'
  {
    var parts := Numerals(ns, 16);
    forall i | 0 <= i < |parts| ensures ':' !in parts[i] && '.' !in parts[i] {
      NumeralIsDigits(ns[i], 16, ':');
      NumeralIsDigits(ns[i], 16, '.');
    }
    NoGap(parts);
    JoinEnds(parts, ':');
    if ns != [] {
      SplitJoin(parts, ':');
      GroupsRoundTrip(V6, ns);
    }
  }

  lemma {:induction false} JoinEnds(parts: seq<string>, sep: char)
    requires forall i :: 0 <= i < |parts| ==> parts[i] != "" && sep !in parts[i]
    ensures parts != [] ==> Join(parts, sep) != "" && Join(parts, sep)[|Join(parts, sep)| - 1] != sep
  {
    if |parts| > 1 { JoinEnds(parts[1..], sep); }
  }

  /** Shortened IPv6 text: the groups around "::" with zeros in between. */
  lemma ShortForm(left: seq<nat>, right: seq<nat>)
    requires |left| + |right| <= 7
    requires forall i :: 0 <= i < |left| ==> left[i] < V6.Limit()
    requires forall i :: 0 <= i < |right| ==> right[i] < V6.Limit()
    ensures ParseColons(ColonText(left) + "::" + ColonText(right))
         == Some(left + ZeroGroups(8 - |left| - |right|) + right)
  {
    var a, b := ColonText(left), ColonText(right);
    ColonParts(left);
    ColonParts(right);
    GapAt(a, b);
    ParseAround(a + "::" + b, a, b, left, right);
  }

  lemma ParseAround(s: string, a: string, b: string, left: seq<nat>, right: seq<nat>)
    requires |left| + |right| <= 7 && ColonGroups(a, false) == Some(left) && ColonGroups(b, true) == Some(right)
    requires s == a + "::" + b && Gap(s) == Some(|a|)
    ensures ParseColons(s) == Some(left + ZeroGroups(8 - |left| - |right|) + right)
  {
    assert s[..|a|] == a && s[|a| + 2..] == b;
  }

  lemma AddressRoundTrip(f: Family, ip: seq<byte>)
    requires |ip| == f.Width()
    ensures ParseAddress(AddressText(f, ip)) == Some((f, ip))
    ensures '/' !in AddressText(f, ip)
  {
    var parts := Numerals(Groups(f, ip), f.Base());
    var s := AddressText(f, ip);
    forall i | 0 <= i < |parts| ensures '.' !in parts[i] && ':' !in parts[i] && '/' !in parts[i] {
      NumeralIsDigits(Groups(f, ip)[i], f.Base(), '.');
      NumeralIsDigits(Groups(f, ip)[i], f.Base(), ':');
      NumeralIsDigits(Groups(f, ip)[i], f.Base(), '/');
    }
    JoinAvoids(parts, f.Separator(), '/');
    if f.V4? {
      JoinAvoids(parts, '.', ':');
    } else {
      assert s == parts[0] + [':'] + Join(parts[1..], ':');
      assert s[|parts[0]|] == ':';
      NoGap(parts);
    }
    SplitJoin(parts, f.Separator());
    GroupsRoundTrip(f, Groups(f, ip));
    UngroupGroups(f, ip);
  }

  // ----- dotted texts are canonical

  lemma {:induction false} DecimalIsNumeral(s: string, n: nat)
    requires ParseNumeral(s, 10) == Some(n) && (|s| == 1 || s[0] != '0')
    ensures s == Numeral(n, 10) && (s[0] != '0' ==> n > 0)
  {
    var k := |s| - 1;
    var d := DigitValue(s[k]).value;
    assert d < 10 && s[k] == Digit(d);
    if k > 0 {
      var m := ParseNumeral(s[..k], 10).value;
      DecimalIsNumeral(s[..k], m);
      assert n == m * 10 + d && n / 10 == m && n % 10 == d;
      assert s == s[..k] + [s[k]];
    }
  }

  lemma {:induction false} JoinSplit(s: string, sep: char)
    ensures Join(Split(s, sep), sep) == s
  {
    if s != [] {
      JoinSplit(s[1..], sep);
      var r := Split(s[1..], sep);
      if s[0] == sep {
        assert ([[]] + r)[1..] == r;
      } else {
        assert ([[s[0]] + r[0]] + r[1..])[1..] == r[1..];
      }
    }
  }

  lemma {:induction false} GroupsAreNumerals(parts: seq<string>, ns: seq<nat>)
    requires ParseGroups(V4, parts) == Some(ns)
    ensures parts == Numerals(ns, 10)
  {
    if parts != [] {
      var n, rest := ParseGroup(V4, parts[0]).value, ParseGroups(V4, parts[1..]).value;
      DecimalIsNumeral(parts[0], n);
      GroupsAreNumerals(parts[1..], rest);
      assert ns == [n] + rest;
    }
  }

  /** A text without a colon that parses is the one that is printed. */
  lemma DottedIsCanonical(s: string, ip: seq<byte>)
    requires ParseAddress(s) == Some((V4, ip))
    ensures |ip| == 4 && s == AddressText(V4, ip)
  {
    var ns := ParseGroups(V4, Split(s, '.')).value;
    GroupsAreNumerals(Split(s, '.'), ns);
    JoinSplit(s, '.');
    assert Groups(V4, ip) == ns;
  }

  // ----- IPv4 in IPv6

  /** ::ffff:0:0/96, the IPv6 addresses that stand for IPv4 ones. */
  predicate Mapped(ip: seq<byte>) {
    |ip| == 16 && (forall i :: 0 <= i < 10 ==> ip[i] == 0) && ip[10] == 0xFF && ip[11] == 0xFF
  }

  /** net.IP.To4: a mapped address is taken for the IPv4 address it stands for. */
  function To4(a: (Family, seq<byte>)): (r: (Family, seq<byte>))
    requires |a.1| == a.0.Width()
    ensures |r.1| == r.0.Width()
  {
    if a.0.V6? && Mapped(a.1) then (V4, a.1[12..]) else a
  }

  /** The usual text of a mapped address. */
  function MappedText(ip: seq<byte>): string
    requires |ip| == 4
  {
    ColonText([]) + "::" + ("ffff:" + AddressText(V4, ip))
  }

  /** The two groups of an IPv4 address. */
  function Quad(ip: seq<byte>): (r: seq<nat>)
    requires |ip| == 4
    ensures |r| == 2
  {
    [ip[0] as nat * 0x100 + ip[1] as nat, ip[2] as nat * 0x100 + ip[3] as nat]
  }

  function MappedGroups(ip: seq<byte>): (r: seq<nat>)
    requires |ip| == 4
    ensures |r| == 3
  {
    var ones: nat := 0xFFFF;
    [ones] + Quad(ip)
  }

  lemma QuadRoundTrip(ip: seq<byte>)
    requires |ip| == 4
    ensures ParseQuad(AddressText(V4, ip)) == Some(Quad(ip))
  {
    var parts := Numerals(Groups(V4, ip), 10);
    forall i | 0 <= i < 4 ensures '.' !in parts[i] { NumeralIsDigits(ip[i], 10, '.'); }
    SplitJoin(parts, '.');
    GroupsRoundTrip(V4, Groups(V4, ip));
  }

  /** The dotted tail of a mapped text, behind "::". */
  lemma MappedTail(ip: seq<byte>)
    requires |ip| == 4
    ensures ColonGroups("ffff:" + AddressText(V4, ip), true) == Some(MappedGroups(ip))
  {
    var a := AddressText(V4, ip);
    assert "ffff" + [':'] + a == "ffff:" + a;
    V4Chars(ip);
    SplitHead("ffff", a, ':');
    SplitNone(a, ':');
    FfffGroup();
    QuadRoundTrip(ip);
    TailWithQuad("ffff", a, MappedGroups(ip)[0], Quad(ip));
  }

  lemma TailWithQuad(p: string, a: string, n: nat, q: seq<nat>)
    requires ParseGroup(V6, p) == Some(n) && '.' in a && ParseQuad(a) == Some(q)
    ensures ParseTail([p] + [a], true) == Some([n] + q)
  {
    var parts := [p] + [a];
    assert parts[..1] == [p];
    OneGroup(p, n);
  }

  lemma OneGroup(p: string, n: nat)
    requires ParseGroup(V6, p) == Some(n)
    ensures ParseGroups(V6, [p]) == Some([n])
  {
    var none: seq<string> := [];
    assert [p][1..] == none && ParseGroups(V6, none) == Some([]);
    assert [n] + [] == [n];
  }

  lemma FfffGroup()
    ensures ParseGroup(V6, "ffff") == Some(0xFFFF)
  {
    FfffIsNumeral();
    GroupRoundTrip(V6, 0xFFFF);
  }

  lemma FfffIsNumeral()
    ensures Numeral(0xFFFF, 16) == "ffff"
  {
    assert Numeral(0xF, 16) == "f";
    assert Numeral(0xFF, 16) == "ff";
    assert Numeral(0xFFF, 16) == "fff";
  }

  lemma V4Chars(ip: seq<byte>)
    requires |ip| == 4
    ensures var a := AddressText(V4, ip); ':' !in a && '.' in a
  {
    var parts := Numerals(Groups(V4, ip), 10);
    forall i | 0 <= i < 4 ensures ':' !in parts[i] { NumeralIsDigits(ip[i], 10, ':'); }
    JoinAvoids(parts, '.', ':');
    assert Join(parts, '.')[|parts[0]|] == '.';
  }

  /** A mapped text is read as the IPv4 address it stands for. */
  lemma MappedRoundTrip(ip: seq<byte>)
    requires |ip| == 4
    ensures var a := ParseAddress(MappedText(ip)); a.Some? && To4(a.value) == (V4, ip)
  {
    var tail, right := "ffff:" + AddressText(V4, ip), MappedGroups(ip);
    MappedTail(ip);
    assert ColonText([]) == "";
    GapAt("", tail);
    assert "" + "::" + tail == MappedText(ip);
    ParseAround(MappedText(ip), "", tail, [], right);
    assert MappedText(ip)[0] == ':';
    MappedBytes([] + ZeroGroups(5) + right, ip);
  }

  lemma MappedBytes(ns: seq<nat>, ip: seq<byte>)
    requires |ip| == 4 && |ns| == 8 && (forall i :: 0 <= i < 8 ==> ns[i] < V6.Limit())
    requires (forall i :: 0 <= i < 5 ==> ns[i] == 0) && ns[5..] == MappedGroups(ip)
    ensures Mapped(Ungroup(V6, ns)) && Ungroup(V6, ns)[12..] == ip
  {
    var a, g := Ungroup(V6, ns), MappedGroups(ip);
    assert ns[5] == ns[5..][0] == 0xFFFF && ns[6] == ns[5..][1] == Quad(ip)[0] && ns[7] == ns[5..][2] == Quad(ip)[1];
    assert a[12] == ip[0] && a[13] == ip[1] && a[14] == ip[2] && a[15] == ip[3];
  }

  /** Only prefixes of 96 bits or more have a mapped network address. */
  lemma MappedIsLong(p: Prefix)
    requires |p| <= 128 && Mapped(Network(p, 16))
    ensures |p| >= 96
  {
    var ip := Network(p, 16);
    NetworkBits(p, 16);
    assert Bits(ip)[95] == BitsOf(ip[11])[7];
    BinaryIsShift(0xFF, 8, 7);
    assert Bits(ip)[95] == Padded(p, 16)[95];
  }

  // ----- CIDR

  function CidrText(f: Family, p: Prefix): string
    requires |p| <= 8 * f.Width()
  {
    if p == [] then f.Any() else AddressText(f, Network(p, f.Width())) + ['/'] + Numeral(|p|, 10)
  }

  /** Address, slash, prefix length; host bits are dropped. */
  function ParseCidr(s: string): (r: Option<(Family, Prefix)>)
    ensures r.Some? ==> |r.value.1| <= 8 * r.value.0.Width()
  {
    var parts := Split(s, '/');
    if |parts| != 2 then None
    else
      var a, n := ParseAddress(parts[0]), ParseNumeral(parts[1], 10);
      if a.None? || n.None? || n.value > 8 * a.value.0.Width() then None
      else Some((a.value.0, Bits(a.value.1)[..n.value]))
  }

  lemma SlashParts(a: string, n: nat)
    requires '/' !in a
    ensures Split(a + ['/'] + Numeral(n, 10), '/') == [a, Numeral(n, 10)]
  {
    NumeralIsDigits(n, 10, '/');
    SplitHead(a, Numeral(n, 10), '/');
    SplitNone(Numeral(n, 10), '/');
  }

  lemma CidrParts(f: Family, p: Prefix)
    requires 0 < |p| <= 8 * f.Width()
    ensures Split(CidrText(f, p), '/') == [AddressText(f, Network(p, f.Width())), Numeral(|p|, 10)]
  {
    AddressRoundTrip(f, Network(p, f.Width()));
    SlashParts(AddressText(f, Network(p, f.Width())), |p|);
  }

  lemma AnyIsZero()
    ensures V4.Any() == AddressText(V4, [0, 0, 0, 0]) + ['/'] + Numeral(0, 10)
  {
    var zero: seq<byte> := [0, 0, 0, 0];
    var parts := ["0", "0", "0", "0"];
    assert Numerals(Groups(V4, zero), 10) == parts;
    assert Join(parts[1..], '.') == "0.0.0" by { assert Join(parts[2..], '.') == "0.0"; }
    assert AddressText(V4, zero) == "0.0.0.0";
  }

  lemma AnyRoundTrip(f: Family)
    ensures ParseCidr(f.Any()) == Some((f, []))
  {
    NumeralRoundTrip(0, 10);
    if f.V4? {
      AnyIsZero();
      AddressRoundTrip(V4, [0, 0, 0, 0]);
      SlashParts(AddressText(V4, [0, 0, 0, 0]), 0);
    } else {
      SlashParts("::", 0);
      assert "::" + ['/'] + Numeral(0, 10) == f.Any();
    }
  }

  /** prefixToCIDR is inverted by the parser, for every prefix of either family. */
  lemma CidrRoundTrip(f: Family, p: Prefix)
    requires |p| <= 8 * f.Width()
    ensures ParseCidr(CidrText(f, p)) == Some((f, p))
  {
    if p == [] {
      AnyRoundTrip(f);
    } else {
      CidrParts(f, p);
      AddressRoundTrip(f, Network(p, f.Width()));
      NumeralRoundTrip(|p|, 10);
      NetworkBits(p, f.Width());
    }
  }

  /** Host bits are dropped, and a length the family does not have is refused. */
  lemma HostBitsDropped(f: Family, ip: seq<byte>, n: nat)
    requires |ip| == f.Width()
    ensures ParseCidr(AddressText(f, ip) + ['/'] + Numeral(n, 10))
         == if n <= 8 * |ip| then Some((f, Bits(ip)[..n])) else None
  {
    AddressRoundTrip(f, ip);
    SlashParts(AddressText(f, ip), n);
    NumeralRoundTrip(n, 10);
  }

  /** IPv4 in dotted decimal. */
  lemma DottedDecimal(a: byte, b: byte, c: byte, d: byte)
    ensures AddressText(V4, [a, b, c, d])
         == Numeral(a, 10) + "." + Numeral(b, 10) + "." + Numeral(c, 10) + "." + Numeral(d, 10)
  {
    var g := Numerals(Groups(V4, [a, b, c, d]), 10);
    assert g == [Numeral(a, 10), Numeral(b, 10), Numeral(c, 10), Numeral(d, 10)];
    JoinFour(g[0], g[1], g[2], g[3], '.');
  }

  lemma JoinFour(a: string, b: string, c: string, d: string, sep: char)
    ensures Join([a, b, c, d], sep) == a + [sep] + b + [sep] + c + [sep] + d
  {
    assert [a, b, c, d] == [a, b] + [c, d];
    JoinHalves([a, b], [c, d], sep);
    assert Join([a, b], sep) == a + [sep] + b && Join([c, d], sep) == c + [sep] + d;
    assert a + [sep] + b + [sep] + (c + [sep] + d) == a + [sep] + b + [sep] + c + [sep] + d;
  }

  /** IPv6 as eight groups of 16 bits in hexadecimal, section 2.2 of RFC 4291. */
  lemma ColonHexadecimal(x: seq<byte>, y: seq<byte>)
    requires |x| == 8 && |y| == 8
    ensures AddressText(V6, x + y) == FourGroups(x) + ":" + FourGroups(y)
  {
    var g := Numerals(Groups(V6, x + y), 16);
    JoinHalves(g[..4], g[4..], ':');
    assert g == g[..4] + g[4..];
    assert g[..4] == [Pair(x[0], x[1]), Pair(x[2], x[3]), Pair(x[4], x[5]), Pair(x[6], x[7])];
    assert g[4..] == [Pair(y[0], y[1]), Pair(y[2], y[3]), Pair(y[4], y[5]), Pair(y[6], y[7])];
    JoinFour(g[0], g[1], g[2], g[3], ':');
    JoinFour(g[4], g[5], g[6], g[7], ':');
  }

  function Pair(hi: byte, lo: byte): string { Numeral(hi as nat * 0x100 + lo as nat, 16) }

  function FourGroups(x: seq<byte>): string
    requires |x| == 8
  {
    Pair(x[0], x[1]) + ":" + Pair(x[2], x[3]) + ":" + Pair(x[4], x[5]) + ":" + Pair(x[6], x[7])
  }

  lemma {:induction false} JoinHalves(a: seq<string>, b: seq<string>, sep: char)
    requires a != [] && b != []
    ensures Join(a + b, sep) == Join(a, sep) + [sep] + Join(b, sep)
  {
    assert (a + b)[1..] == a[1..] + b;
    if |a| > 1 {
      JoinHalves(a[1..], b, sep);
    }
  }

  /** A numeral has the value of its digits, and the digits are the usual ones. */
  lemma {:induction false} NumeralDigits(n: nat, base: nat)
    requires IsBase(base)
    ensures var s := Numeral(n, base);
            && s[|s| - 1] == "0123456789abcdef"[n % base]
            && (if n < base then |s| == 1 else s[..|s| - 1] == Numeral(n / base, base))
  {
    var d := n % base;
    assert d < 10 ==> "0123456789"[d] == '0' + d as char;
    assert 10 <= d ==> "abcdef"[d - 10] == 'a' + (d - 10) as char;
    assert "0123456789abcdef" == "0123456789" + "abcdef";
  }

  lemma CidrInjective(f: Family, p: Prefix, g: Family, q: Prefix)
    requires |p| <= 8 * f.Width() && |q| <= 8 * g.Width()
    requires CidrText(f, p) == CidrText(g, q)
    ensures f == g && p == q
  {
    CidrRoundTrip(f, p);
    CidrRoundTrip(g, q);
  }

  // ----- the printers, as the code runs them

  /** Sets the bits of the prefix one by one in a zeroed array. */
  method SetBits(prefix: Prefix, ip: array<byte>)
    requires |prefix| <= 8 * ip.Length && forall k :: 0 <= k < ip.Length ==> ip[k] == 0
    modifies ip
    ensures Bits(ip[..]) == Padded(prefix, ip.Length)
  {
    ZeroBits(ip[..]);
    assert prefix[..0] == [];
    for i := 0 to |prefix|
      invariant Bits(ip[..]) == Padded(prefix[..i], ip.Length)
    {
      PaddedStep(prefix, i, ip.Length);
      if prefix[i] {
        OrBitSets(ip[..], i);
        ghost var after := ip[..][i / 8 := OrBit(ip[i / 8], i % 8)];
        ip[i / 8] := OrBit(ip[i / 8], i % 8);
        assert ip[..] == after;
      }
    }
    assert prefix[..|prefix|] == prefix;
  }

  lemma ZeroBits(ip: seq<byte>)
    requires forall k :: 0 <= k < |ip| ==> ip[k] == 0
    ensures Bits(ip) == Padded([], |ip|)
  {
    forall i | 0 <= i < 8 * |ip| ensures !BitAt(ip, i) {
      BinaryOfZero(8, i % 8);
    }
  }

  lemma {:induction false} BinaryOfZero(k: nat, i: nat)
    requires i < k
    ensures !Binary(0, k)[i]
  {
    if i < k - 1 {
      BinaryOfZero(k - 1, i);
    }
  }

  lemma OrBitSets(ip: seq<byte>, i: nat)
    requires i < 8 * |ip|
    ensures Bits(ip[i / 8 := OrBit(ip[i / 8], i % 8)]) == Bits(ip)[i := true]
  {
    var x := BitsOf(ip[i / 8])[i % 8 := true];
    BitsRoundTrip(x);
    var ip' := ip[i / 8 := OrBit(ip[i / 8], i % 8)];
    forall j | 0 <= j < 8 * |ip| ensures BitAt(ip', j) == Bits(ip)[i := true][j] {
      if j / 8 == i / 8 {
        assert BitAt(ip', j) == x[j % 8];
        assert j == i <==> j % 8 == i % 8;
      }
    }
  }

  lemma PaddedStep(p: Prefix, i: nat, width: nat)
    requires i < |p| <= 8 * width
    ensures Padded(p[..i + 1], width) == Padded(p[..i], width)[i := p[i]]
    ensures !p[i] ==> Padded(p[..i + 1], width) == Padded(p[..i], width)
  {
  }

  /** Clearing the host bits after the prefix changes nothing: they are still zero. */
  method ClearHostBits(bits: nat, ip: array<byte>, ghost prefix: Prefix)
    requires bits == |prefix| < 8 * ip.Length && Bits(ip[..]) == Padded(prefix, ip.Length)
    modifies ip
    ensures ip[..] == old(ip[..])
  {
    var last := bits / 8;
    for k := last + 1 to ip.Length
      invariant ip[..] == old(ip[..])
    {
      ZeroByte(ip[..], k, bits);
      ip[k] := 0;
    }
    if bits % 8 > 0 {
      forall i | bits % 8 <= i < 8 ensures !BitsOf(ip[last])[i] {
        assert Bits(ip[..])[8 * last + i] == BitsOf(ip[last])[i];
      }
      MaskTailIdle(ip[last], bits % 8);
      ip[last] := MaskTail(ip[last], bits % 8);
    }
  }

  lemma ZeroByte(ip: seq<byte>, k: nat, bits: nat)
    requires k < |ip| && bits <= 8 * k && forall i :: bits <= i < 8 * |ip| ==> !Bits(ip)[i]
    ensures ip[k] == 0
  {
    var x := BitsOf(ip[k]);
    forall i | 0 <= i < 8 ensures x[i] == BitsOf(0)[i] {
      assert Bits(ip)[8 * k + i] == x[i];
      BinaryOfZero(8, i);
    }
    assert x == BitsOf(0);
    ByteRoundTrip(ip[k]);
    ByteRoundTrip(0);
  }

  lemma {:induction false} JoinSnoc(parts: seq<string>, x: string, sep: char)
    ensures Join(parts + [x], sep) == if parts == [] then x else Join(parts, sep) + [sep] + x
  {
    if |parts| > 0 {
      assert (parts + [x])[1..] == parts[1..] + [x];
      JoinSnoc(parts[1..], x, sep);
    }
  }

  /** ip4ToString and ip6ToString. */
  method AddressToString(f: Family, ip: seq<byte>) returns (s: string)
    requires |ip| == f.Width()
    ensures s == AddressText(f, ip)
  {
    s := "";
    var groups := Groups(f, ip);
    ghost var parts := Numerals(groups, f.Base());
    for i := 0 to |groups|
      invariant s == Join(parts[..i], f.Separator())
    {
      if i > 0 { s := s + [f.Separator()]; }
      var n := PrintNumeral(groups[i], f.Base());
      s := s + n;
      JoinSnoc(parts[..i], parts[i], f.Separator());
      assert parts[..i] + [parts[i]] == parts[..i + 1];
    }
    assert parts[..|groups|] == parts;
  }

  /** prefixToCIDR */
  method PrefixToCidr(f: Family, prefix: Prefix) returns (s: string)
    requires |prefix| <= 8 * f.Width()
    ensures s == CidrText(f, prefix)
  {
    if |prefix| == 0 { return f.Any(); }
    var ip := new byte[f.Width()](_ => 0);
    SetBits(prefix, ip);
    if |prefix| < 8 * f.Width() { ClearHostBits(|prefix|, ip, prefix); }
    NetworkBits(prefix, f.Width());
    BitsInjective(ip[..], Network(prefix, f.Width()));
    var a := AddressToString(f, ip[..]);
    var n := PrintNumeral(|prefix|, 10);
    s := a + ['/'] + n;
  }
}
