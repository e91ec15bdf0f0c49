/**
  The binary trie of the router, on the heap. IPv4 and IPv6 run the same code over 4 and 16 bytes,
  so one class models both.

  The ghost field `nodes` names every linked node by the bit path that leads to it; `View` is the
  table the trie stands for: the live prefixes and their targets.
 */
module Trie {
  import opened Bytes
  import opened Prefixes
  import opened Tables
  import opened RouteHash

  class TrieNode {
    var zero: TrieNode?
    var one: TrieNode?
    var leaf: bool
    var target: Option<Any>
    ghost var path: Prefix    // the bits that lead here from the root

    constructor (ghost path: Prefix)
      ensures zero == null && one == null && !leaf && target == None && this.path == path
    {
      zero, one, leaf, target := null, null, false, None;
      this.path := path;
    }

    function Child(b: bool): TrieNode?
      reads this
    {
      if b then one else zero
    }
  }

  class Trie {
    const width: nat          // address bytes: 4 or 16
    const root: TrieNode
    ghost var nodes: map<Prefix, TrieNode>

    /** The child pointer for bit b of the node at p leads to the node at p + [b], if there is one. */
    ghost predicate Linked(p: Prefix, b: bool)
      requires p in nodes
      reads this, nodes.Values
    {
      nodes[p].Child(b) == if p + [b] in nodes then nodes[p + [b]] else null
    }

    ghost predicate NodeOk(p: Prefix)
      requires p in nodes
      reads this, nodes.Values
    {
      && nodes[p].path == p && |p| <= 8 * width
      && Linked(p, false) && Linked(p, true)
      && (nodes[p].leaf <==> nodes[p].target.Some?)
      && (p != [] ==> p[..|p| - 1] in nodes)
    }

    ghost predicate Valid()
      reads this, nodes.Values
    {
      && [] in nodes && nodes[[]] == root
      && (forall p {:trigger NodeOk(p)} :: p in nodes ==> NodeOk(p))
    }

    ghost function View(): Table
      reads this, nodes.Values
    {
      map p | p in nodes && nodes[p].target.Some? :: nodes[p].target.value
    }

    constructor (width: nat)
      ensures Valid() && fresh(nodes.Values) && View() == map[] && this.width == width
    {
      var r := new TrieNode([]);
      this.width := width;
      root := r;
      nodes := map[[] := r];
    }

    /** A missing node leaves no node below it. */
    lemma {:induction false} NothingBelow(p: Prefix, q: Prefix)
      requires Valid() && p !in nodes && p <= q
      ensures q !in nodes
      decreases |q|
    {
      if |q| > |p| {
        NothingBelow(p, q[..|q| - 1]);
        assert q in nodes ==> NodeOk(q);
      } else {
        assert p == q;
      }
    }

    /** Hangs a fresh node below p, as a successful CompareAndSwap(nil, next) does. */
    method Grow(current: TrieNode, ghost p: Prefix, b: bool) returns (next: TrieNode)
      requires Valid() && p in nodes && nodes[p] == current && |p| < 8 * width && current.Child(b) == null
      modifies this`nodes, current
      ensures Valid() && fresh(next)
      ensures nodes == old(nodes)[p + [b] := next] && p + [b] !in old(nodes)
      ensures View() == old(View())
    {
      ghost var np := p + [b];
      assert np !in nodes by { assert NodeOk(p); }
      NothingBelow(np, np + [false]);
      NothingBelow(np, np + [true]);
      Apart(current, p);
      next := new TrieNode(np);
      if b { current.one := next; } else { current.zero := next; }
      nodes := nodes[np := next];
      forall q {:trigger NodeOk(q)} | q in nodes ensures NodeOk(q) {
        assert np[..|np| - 1] == p;
        assert (q + [false])[..|q|] == q && (q + [true])[..|q|] == q;
        if q != np { assert old(NodeOk(q)); }
      }
    }

    /** Nodes at different prefixes are different objects. */
    lemma Apart(current: TrieNode, p: Prefix)
      requires Valid() && p in nodes && nodes[p] == current
      ensures forall q :: q in nodes && nodes[q] == current ==> q == p
    {
      assert NodeOk(p);
      forall q | q in nodes && nodes[q] == current ensures q == p {
        assert NodeOk(q);
      }
    }

    /** The walk of insert: creates the missing nodes down to the prefix. No route changes. */
    method Walk(ip: seq<byte>, ones: nat) returns (current: TrieNode)
      requires Valid() && |ip| == width && ones <= 8 * width
      modifies this`nodes, nodes.Values
      ensures Valid() && fresh(nodes.Values - old(nodes.Values)) && View() == old(View())
      ensures Bits(ip)[..ones] in nodes && nodes[Bits(ip)[..ones]] == current
    {
      current := root;
      ghost var key := Bits(ip)[..ones];
      var i := 0;
      while i < ones
        invariant 0 <= i <= ones && Valid() && key[..i] in nodes && nodes[key[..i]] == current
        invariant View() == old(View())
        invariant fresh(nodes.Values - old(nodes.Values))
      {
        var bit := Shr(ip[i / 8], 7 - i % 8) % 2 == 1;
        assert bit == key[i] by { BinaryIsShift(ip[i / 8], 8, i % 8); }
        assert key[..i + 1] == key[..i] + [bit];
        assert NodeOk(key[..i]);
        var next := current.Child(bit);
        if next == null {
          next := Grow(current, key[..i], bit);
        }
        current := next;
        i := i + 1;
      }
      assert key[..ones] == key;
    }

    method Insert(ip: seq<byte>, ones: nat, val: Any)
      requires Valid() && ones <= 8 * width
      modifies this`nodes, nodes.Values
      ensures Valid() && fresh(nodes.Values - old(nodes.Values))
      ensures View() == if |ip| != width then old(View()) else old(View())[Bits(ip)[..ones] := val]
    {
      if |ip| != width { return; }
      var current := Walk(ip, ones);
      SetTarget(current, Some(val), Bits(ip)[..ones]);
    }

    /** The final stores of insert and remove: leaf and target change together. */
    method SetTarget(current: TrieNode, target: Option<Any>, ghost p: Prefix)
      requires Valid() && p in nodes && nodes[p] == current
      modifies current`leaf, current`target
      ensures Valid()
      ensures View() == if target.Some? then old(View())[p := target.value] else old(View()) - {p}
    {
      Apart(current, p);
      current.leaf := target.Some?;
      current.target := target;
      forall q {:trigger NodeOk(q)} | q in nodes ensures NodeOk(q) {
        assert old(NodeOk(q));
        assert old(Linked(q, false)) && old(Linked(q, true));
      }
    }

    /** The walk of remove: the node of the prefix, or null if the walk finds none. */
    method Find(ip: seq<byte>, ones: nat) returns (current: TrieNode?)
      requires Valid() && |ip| == width && ones <= 8 * width
      ensures current == if Bits(ip)[..ones] in nodes then nodes[Bits(ip)[..ones]] else null
    {
      current := root;
      ghost var key := Bits(ip)[..ones];
      var i := 0;
      while i < ones
        invariant 0 <= i <= ones && key[..i] in nodes && nodes[key[..i]] == current
      {
        var bit := Shr(ip[i / 8], 7 - i % 8) % 2 == 1;
        assert bit == key[i] by { BinaryIsShift(ip[i / 8], 8, i % 8); }
        assert key[..i + 1] == key[..i] + [bit];
        assert NodeOk(key[..i]);
        var next := current.Child(bit);
        if next == null {
          NothingBelow(key[..i + 1], key);
          return null;
        }
        current := next;
        i := i + 1;
      }
      assert key[..ones] == key;
    }

    method Remove(ip: seq<byte>, ones: nat)
      requires Valid() && ones <= 8 * width
      modifies nodes.Values
      ensures Valid() && nodes == old(nodes)
      ensures View() == if |ip| != width then old(View()) else old(View()) - {Bits(ip)[..ones]}
    {
      if |ip| != width { return; }
      var current := Find(ip, ones);
      if current != null { SetTarget(current, None, Bits(ip)[..ones]); }
    }

    /** The longest live prefix of the address decides, or nothing does. */
    method Lookup(ip: seq<byte>) returns (r: Option<Any>)
      requires Valid()
      ensures r == if |ip| != width then None else LongestMatch(View(), Bits(ip))
    {
      if |ip| != width { return None; }
      var current := root;
      ghost var a, m := Bits(ip), View();
      r := None;
      var i := 0;
      while i < 8 * width
        invariant 0 <= i <= 8 * width && a[..i] in nodes && nodes[a[..i]] == current
        invariant r == if i == 0 then None else Best(m, a, i - 1)
      {
        if current.leaf && current.target.Some? { r := current.target; }
        assert NodeOk(a[..i]);
        assert r == Best(m, a, i);
        var bit := Shr(ip[i / 8], 7 - i % 8) % 2 == 1;
        assert bit == a[i] by { BinaryIsShift(ip[i / 8], 8, i % 8); }
        assert a[..i + 1] == a[..i] + [bit];
        var next := current.Child(bit);
        if next == null {
          forall j | i < j <= |a| ensures a[..j] !in m {
            assert a[..i + 1] <= a[..j];
            NothingBelow(a[..i + 1], a[..j]);
          }
          BestIgnores(m, a, i, |a|);
          break;
        }
        current := next;
        i := i + 1;
      }
      if current.leaf && current.target.Some? { r := current.target; }
      assert NodeOk(a[..i]);
    }

    // ----- traversal

    /** No live prefix below a missing child. */
    lemma NoBranch(p: Prefix, b: bool, room: nat)
      requires Valid() && p in nodes && nodes[p].Child(b) == null
      ensures Enumerate(View(), p + [b], room) == []
    {
      assert NodeOk(p);
      forall q | q in View() ensures !(p + [b] <= q) {
        if p + [b] <= q { NothingBelow(p + [b], q); }
      }
      EnumerateNothing(View(), p + [b], room);
    }

    /** No live prefix at or below a child that is no leaf and has no children: what collectMD5 prunes. */
    lemma DeadBranch(p: Prefix, b: bool, room: nat)
      requires Valid() && p in nodes && nodes[p].Child(b) != null
      requires var c := nodes[p].Child(b);
               p + [b] in nodes && c == nodes[p + [b]] && !c.leaf && c.zero == null && c.one == null
      ensures Enumerate(View(), p + [b], room) == []
    {
      var pb := p + [b];
      assert NodeOk(pb);
      forall q | q in View() ensures !(pb <= q) {
        if pb <= q {
          ExtendCases(pb, q);
          if pb + [false] <= q { NothingBelow(pb + [false], q); }
          if pb + [true] <= q { NothingBelow(pb + [true], q); }
        }
      }
      EnumerateNothing(View(), pb, room);
    }

    /** collectRoutes: every live prefix at or below a node, in order. */
    function CollectRoutes(node: TrieNode, prefix: Prefix, depth: nat): (keys: seq<Prefix>)
      requires Valid() && prefix in nodes && nodes[prefix] == node && depth == |prefix| <= MAX_DEPTH
      reads this, nodes.Values
      ensures keys == Enumerate(View(), prefix, MAX_DEPTH - depth)
      decreases MAX_DEPTH - depth
    {
      if depth >= MAX_DEPTH then []
      else
        assert NodeOk(prefix);
        var here := if node.leaf && node.target.Some? then [prefix] else [];
        var zeros :=
          if node.zero != null then CollectRoutes(node.zero, prefix + [false], depth + 1)
          else (NoBranch(prefix, false, MAX_DEPTH - depth - 1); []);
        var ones :=
          if node.one != null then CollectRoutes(node.one, prefix + [true], depth + 1)
          else (NoBranch(prefix, true, MAX_DEPTH - depth - 1); []);
        here + zeros + ones
    }

    function AllRoutes(): (keys: seq<Prefix>)
      requires Valid()
      reads this, nodes.Values
      ensures keys == Keys(View()) && forall i :: 0 <= i < |keys| ==> |keys[i]| <= 8 * width
    {
      KeysFit();
      assert forall i :: 0 <= i < |Keys(View())| ==> Keys(View())[i] in Keys(View());
      CollectRoutes(root, [], 0)
    }

    static predicate Worthwhile(child: TrieNode?)
      reads child
    {
      child != null && (child.leaf || child.zero != null || child.one != null)
    }

    /** What collectMD5 feeds to the hash for the subtree of a node, dead branches skipped. */
    function CollectMd5(node: TrieNode, prefix: Prefix, depth: nat): (text: string)
      requires Valid() && prefix in nodes && nodes[prefix] == node && depth == |prefix| <= MAX_DEPTH
      reads this, nodes.Values
      ensures text == TextBelow(View(), prefix, MAX_DEPTH - depth)
      decreases MAX_DEPTH - depth
    {
      if depth >= MAX_DEPTH then ""
      else
        assert NodeOk(prefix);
        var here := if node.leaf && node.target.Some? then Text(prefix) else "";
        var zeros :=
          if Worthwhile(node.zero) then CollectMd5(node.zero, prefix + [false], depth + 1)
          else (SkippedBranch(prefix, false, MAX_DEPTH - depth - 1); "");
        var ones :=
          if Worthwhile(node.one) then CollectMd5(node.one, prefix + [true], depth + 1)
          else (SkippedBranch(prefix, true, MAX_DEPTH - depth - 1); "");
        here + zeros + ones
    }

    function HashText(): (text: string)
      requires Valid()
      reads this, nodes.Values
      ensures text == HashInput(View())
    {
      TextBelowIs(View(), [], MAX_DEPTH);
      CollectMd5(root, [], 0)
    }

    /** Live prefixes are no longer than an address. */
    lemma KeysFit()
      requires Valid()
      ensures forall p :: p in View() ==> |p| <= 8 * width
      ensures forall p :: p in Keys(View()) ==> |p| <= 8 * width
    {
      forall p | p in View() ensures |p| <= 8 * width {
        assert NodeOk(p);
      }
      KeysComplete(View());
    }

    lemma SkippedBranch(p: Prefix, b: bool, room: nat)
      requires Valid() && p in nodes && !Worthwhile(nodes[p].Child(b))
      ensures TextBelow(View(), p + [b], room) == ""
    {
      TextBelowIs(View(), p + [b], room);
      assert NodeOk(p);
      if nodes[p].Child(b) == null {
        NoBranch(p, b, room);
      } else {
        DeadBranch(p, b, room);
      }
    }
  }
}
