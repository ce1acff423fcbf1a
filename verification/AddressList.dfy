/** In-place deduplication of the linked address lists of src/address.c. */
module AddressList {
  import opened Address

  class Node {
    const addr: Sockaddr
    var next: Node?

    constructor (addr: Sockaddr, next: Node?)
      ensures this.addr == addr && this.next == next
    {
      this.addr, this.next := addr, next;
    }
  }

  function NodeAt(nodes: seq<Node>, i: nat): Node? {
    if i < |nodes| then nodes[i] else null
  }

  /** The nodes reached from `head`, in order; no node occurs twice. */
  ghost predicate Chain(head: Node?, nodes: seq<Node>)
    reads nodes
  {
    && head == NodeAt(nodes, 0)
    && (forall i {:trigger nodes[i].next} :: 0 <= i < |nodes| ==> nodes[i].next == NodeAt(nodes, i + 1))
    && (forall i, j :: 0 <= i < j < |nodes| ==> nodes[i] != nodes[j])
  }

  ghost predicate Inside(s: seq<Node>, repr: set<Node>) {
    forall i :: 0 <= i < |s| ==> s[i] in repr
  }

  // ----- specification -----

  /** Drops the nodes with an address equal to `a`. */
  function Without(s: seq<Node>, a: Sockaddr): seq<Node> {
    if |s| == 0 then []
    else if Equal(a, s[0].addr) then Without(s[1..], a)
    else [s[0]] + Without(s[1..], a)
  }

  lemma WithoutShrinks(s: seq<Node>, a: Sockaddr)
    ensures |Without(s, a)| <= |s|
  {
  }

  /** What the two nested loops compute. */
  function Unique(s: seq<Node>): seq<Node>
    decreases |s|
  {
    if |s| == 0 then []
    else
      WithoutShrinks(s[1..], s[0].addr);
      [s[0]] + Unique(Without(s[1..], s[0].addr))
  }

  // ----- the loops -----

  /** Unlinks node `k`: the link that pointed to it now points past it. */
  method Unlink(head: Node?, ghost nodes: seq<Node>, ghost k: nat, prev: Node)
    requires Chain(head, nodes) && 0 < k < |nodes| && prev == nodes[k - 1]
    modifies prev
    ensures Chain(head, nodes[..k] + nodes[k + 1..])
  {
    assert nodes[k - 1].next == NodeAt(nodes, k) && nodes[k].next == NodeAt(nodes, k + 1);
    prev.next := prev.next.next;
    ghost var r := nodes[..k] + nodes[k + 1..];
    forall i | 0 <= i < |r| ensures r[i].next == NodeAt(r, i + 1) {
      if i < k { assert r[i] == nodes[i]; } else { assert r[i] == nodes[i + 1]; }
    }
  }

  /** The inner loop: removes the nodes after `nodes[k]` that have its address. */
  method DropEqualAfter(head: Node?, ghost nodes: seq<Node>, ghost k: nat, ap: Node, ghost repr: set<Node>)
    returns (ghost left: seq<Node>)
    requires Chain(head, nodes) && k < |nodes| && ap == nodes[k] && Inside(nodes, repr)
    modifies repr
    ensures left == nodes[..k + 1] + Without(nodes[k + 1..], ap.addr)
    ensures Inside(left, repr)
    ensures Chain(head, left)
  {
    left := nodes;
    var prev, ap2 := ap, ap.next;
    ghost var n := k + 1;
    ghost var goal := nodes[..n] + Without(nodes[n..], ap.addr);
    assert nodes[k].next == NodeAt(nodes, n);
    while ap2 != null
      invariant k < n <= |left| <= |nodes|
      invariant Inside(left, repr)
      invariant Chain(head, left)
      invariant prev == left[n - 1] && ap2 == NodeAt(left, n)
      invariant left[..n] + Without(left[n..], ap.addr) == goal
      decreases |left| - n
    {
      WithoutStep(left, n, ap.addr);
      if Equal(ap.addr, ap2.addr) {
        Unlink(head, left, n, prev);
        left := left[..n] + left[n + 1..];
        assert left[n - 1].next == NodeAt(left, n);
        ap2 := prev.next;
      } else {
        assert left[n].next == NodeAt(left, n + 1);
        prev, ap2 := ap2, ap2.next;
        n := n + 1;
      }
    }
    assert left[n..] == [];
  }

  lemma WithoutStep(s: seq<Node>, n: nat, a: Sockaddr)
    requires n < |s|
    ensures var t := s[..n] + s[n + 1..];
            Equal(a, s[n].addr) ==> s[..n] + Without(s[n..], a) == t[..n] + Without(t[n..], a)
    ensures !Equal(a, s[n].addr) ==> s[..n] + Without(s[n..], a) == s[..n + 1] + Without(s[n + 1..], a)
  {
    var t := s[..n] + s[n + 1..];
    assert s[n..][1..] == s[n + 1..] == t[n..];
    assert t[..n] == s[..n];
    assert s[..n + 1] == s[..n] + [s[n]];
  }

  /** The outer loop. */
  method Dedup(head: Node?, ghost nodes: seq<Node>) returns (ghost kept: seq<Node>)
    requires Chain(head, nodes)
    modifies nodes
    ensures kept == Unique(nodes)
    ensures Chain(head, kept)
  {
    kept := nodes;
    ghost var repr := set n | n in nodes;
    var ap := head;
    ghost var k := 0;
    while ap != null
      invariant k <= |kept| <= |nodes|
      invariant Inside(kept, repr)
      invariant Chain(head, kept)
      invariant ap == NodeAt(kept, k)
      invariant kept[..k] + Unique(kept[k..]) == Unique(nodes)
      decreases |kept| - k
    {
      ghost var before := kept;
      kept := DropEqualAfter(head, kept, k, ap, repr);
      UniqueStep(before, kept, k);
      assert kept[k] == before[k] && kept[k].next == NodeAt(kept, k + 1);
      ap := ap.next;
      k := k + 1;
    }
  }

  lemma UniqueStep(before: seq<Node>, after: seq<Node>, k: nat)
    requires k < |before| && after == before[..k + 1] + Without(before[k + 1..], before[k].addr)
    ensures |after| <= |before|
    ensures before[..k] + Unique(before[k..]) == after[..k + 1] + Unique(after[k + 1..])
  {
    WithoutShrinks(before[k + 1..], before[k].addr);
    assert before[k..][1..] == before[k + 1..];
    assert after[k + 1..] == Without(before[k + 1..], before[k].addr);
    assert before[..k] + ([before[k]] + Unique(after[k + 1..])) == before[..k + 1] + Unique(after[k + 1..]);
  }

  // ----- what the specification means -----

  /** No earlier node has this node's address. */
  predicate IsFirst(s: seq<Node>, i: nat)
    requires i < |s|
  {
    forall j :: 0 <= j < i ==> !Equal(s[j].addr, s[i].addr)
  }

  /** The first occurrences from index `i` on, in order. */
  function Firsts(s: seq<Node>, i: nat): seq<Node>
    requires i <= |s|
    decreases |s| - i
  {
    if i == |s| then [] else if IsFirst(s, i) then [s[i]] + Firsts(s, i + 1) else Firsts(s, i + 1)
  }

  /** Drops the nodes with the address of any of the first `i` nodes. */
  function WithoutAll(s: seq<Node>, i: nat, t: seq<Node>): seq<Node>
    requires i <= |s|
  {
    if i == 0 then t else Without(WithoutAll(s, i - 1, t), s[i - 1].addr)
  }

  lemma {:induction false} WithoutAllHead(s: seq<Node>, i: nat, n: Node, t: seq<Node>)
    requires i <= |s|
    ensures WithoutAll(s, i, [n] + t) ==
              if exists j :: 0 <= j < i && Equal(s[j].addr, n.addr) then WithoutAll(s, i, t)
              else [n] + WithoutAll(s, i, t)
    decreases i
  {
    if i > 0 { WithoutAllHead(s, i - 1, n, t); }
  }

  lemma {:induction false} WithoutTwice(s: seq<Node>, a: Sockaddr, b: Sockaddr)
    requires Equal(a, b)
    ensures Without(Without(s, a), b) == Without(s, a)
    decreases |s|
  {
    if |s| > 0 { WithoutTwice(s[1..], a, b); }
  }

  lemma {:induction false} WithoutCommutes(s: seq<Node>, a: Sockaddr, b: Sockaddr)
    ensures Without(Without(s, a), b) == Without(Without(s, b), a)
    decreases |s|
  {
    if |s| > 0 { WithoutCommutes(s[1..], a, b); }
  }

  lemma {:induction false} WithoutAllAgain(s: seq<Node>, i: nat, j: nat, b: Sockaddr, t: seq<Node>)
    requires j < i <= |s| && Equal(s[j].addr, b)
    ensures Without(WithoutAll(s, i, t), b) == WithoutAll(s, i, t)
    decreases i
  {
    if j == i - 1 {
      WithoutTwice(WithoutAll(s, i - 1, t), s[j].addr, b);
    } else {
      WithoutAllAgain(s, i - 1, j, b, t);
      WithoutCommutes(WithoutAll(s, i - 1, t), s[i - 1].addr, b);
    }
  }

  lemma {:induction false} WithoutAllNothing(s: seq<Node>, i: nat)
    requires i <= |s|
    ensures WithoutAll(s, i, []) == []
    decreases i
  {
    if i > 0 { WithoutAllNothing(s, i - 1); }
  }

  lemma {:induction false} UniqueOfRest(s: seq<Node>, i: nat)
    requires i <= |s|
    ensures Unique(WithoutAll(s, i, s[i..])) == Firsts(s, i)
    decreases |s| - i
  {
    if i == |s| {
      WithoutAllNothing(s, i);
    } else {
      assert s[i..] == [s[i]] + s[i + 1..];
      WithoutAllHead(s, i, s[i], s[i + 1..]);
      UniqueOfRest(s, i + 1);
      if !IsFirst(s, i) {
        var j :| 0 <= j < i && Equal(s[j].addr, s[i].addr);
        WithoutAllAgain(s, i, j, s[i].addr, s[i + 1..]);
      }
    }
  }

  /** Deduplication keeps exactly the first occurrence of each address, in the original order. */
  lemma UniqueIsFirsts(s: seq<Node>)
    ensures Unique(s) == Firsts(s, 0)
  {
    UniqueOfRest(s, 0);
  }

  lemma {:induction false} FirstsSelect(s: seq<Node>, i: nat, n: Node)
    requires i <= |s| && n in Firsts(s, i)
    ensures exists k :: i <= k < |s| && s[k] == n && IsFirst(s, k)
    decreases |s| - i
  {
    if IsFirst(s, i) && n == s[i] {
    } else {
      FirstsSelect(s, i + 1, n);
    }
  }

  lemma {:induction false} FirstsDiffer(s: seq<Node>, i: nat, a: nat, b: nat)
    requires i <= |s| && a < b < |Firsts(s, i)|
    ensures !Equal(Firsts(s, i)[a].addr, Firsts(s, i)[b].addr)
    decreases |s| - i
  {
    if IsFirst(s, i) {
      if a == 0 {
        FirstsSelect(s, i + 1, Firsts(s, i)[b]);
      } else {
        FirstsDiffer(s, i + 1, a - 1, b - 1);
      }
    } else {
      FirstsDiffer(s, i + 1, a, b);
    }
  }

  /** No two addresses left are equal. */
  lemma UniqueAddressesDiffer(s: seq<Node>, a: nat, b: nat)
    requires a < b < |Unique(s)|
    ensures !Equal(Unique(s)[a].addr, Unique(s)[b].addr)
  {
    UniqueIsFirsts(s);
    FirstsDiffer(s, 0, a, b);
  }
}
