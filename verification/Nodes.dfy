/** Circular doubly linked lists with a sentinel, at the level of the links themselves. Every pending request is on two
    of them at once, so a list is a set of links in one memory. */
module Nodes {
  /** Where a node lives: in the network itself, in a client or a zombie, or in a pending request, which has one node
      for the global list and one for the list of its owner. */
  datatype Address =
    | GlobalSentinel
    | ClientSentinel(client: nat)
    | ZombieSentinel(zombie: nat)
    | GlobalNode(request: nat)
    | OwnerNode(request: nat)

  datatype Memory = Memory(next: map<Address, Address>, prev: map<Address, Address>)

  function Next(m: Memory, a: Address): Address { if a in m.next then m.next[a] else a }

  function Prev(m: Memory, a: Address): Address { if a in m.prev then m.prev[a] else a }

  function SetNext(m: Memory, a: Address, b: Address): Memory { m.(next := m.next[a := b]) }

  function SetPrev(m: Memory, a: Address, b: Address): Memory { m.(prev := m.prev[a := b]) }

  // ----- the operations, assignment by assignment

  function Reset(m: Memory, a: Address): Memory {
    SetPrev(SetNext(m, a, a), a, a)
  }

  function InsertBefore(m: Memory, at: Address, node: Address): Memory {
    var m1 := SetPrev(SetNext(m, node, at), node, Prev(m, at));
    SetPrev(SetNext(m1, Prev(m, at), node), at, node)
  }

  function InsertAfter(m: Memory, at: Address, node: Address): Memory {
    var m1 := SetNext(SetPrev(m, node, at), node, Next(m, at));
    SetNext(SetPrev(m1, Next(m, at), node), at, node)
  }

  function Remove(m: Memory, node: Address): Memory {
    Reset(SetNext(SetPrev(m, Next(m, node), Prev(m, node)), Prev(m, node), Next(m, node)), node)
  }

  // ----- what a list is

  ghost predicate Distinct(s: seq<Address>) {
    forall i, j :: 0 <= i < j < |s| ==> s[i] != s[j]
  }

  ghost predicate Linked(m: Memory, a: Address, b: Address) {
    Next(m, a) == b && Prev(m, b) == a
  }

  /** From the sentinel through the nodes and back to the sentinel, in both directions. */
  ghost predicate Ring(m: Memory, s: Address, nodes: seq<Address>) {
    && Distinct([s] + nodes)
    && forall i :: 0 <= i <= |nodes| ==> Linked(m, ([s] + nodes)[i], (nodes + [s])[i])
  }

  /** The links of a list are untouched. */
  ghost predicate SameLinks(m: Memory, m': Memory, a: Address) {
    Next(m', a) == Next(m, a) && Prev(m', a) == Prev(m, a)
  }

  lemma RingFrame(m: Memory, m': Memory, s: Address, nodes: seq<Address>)
    requires Ring(m, s, nodes)
    requires forall a :: a in [s] + nodes ==> SameLinks(m, m', a)
    ensures Ring(m', s, nodes)
  {
    forall i | 0 <= i <= |nodes|
      ensures Linked(m', ([s] + nodes)[i], (nodes + [s])[i])
    {
      assert Linked(m, ([s] + nodes)[i], (nodes + [s])[i]);
      assert ([s] + nodes)[i] in [s] + nodes;
      assert (nodes + [s])[i] in [s] + nodes;
    }
  }

  lemma ResetIsEmpty(m: Memory, s: Address)
    ensures Ring(Reset(m, s), s, [])
    ensures forall a :: a != s ==> SameLinks(m, Reset(m, s), a)
  {
  }

  lemma EmptyOrNot(m: Memory, s: Address, nodes: seq<Address>)
    requires Ring(m, s, nodes)
    ensures Next(m, s) == if nodes == [] then s else nodes[0]
  {
    assert Linked(m, ([s] + nodes)[0], (nodes + [s])[0]);
  }

  lemma Follows(m: Memory, s: Address, nodes: seq<Address>, k: nat)
    requires Ring(m, s, nodes) && k < |nodes|
    ensures Next(m, nodes[k]) == if k + 1 < |nodes| then nodes[k + 1] else s
    ensures Prev(m, nodes[k]) == if k > 0 then nodes[k - 1] else s
    ensures nodes[k] != s
  {
    assert Linked(m, ([s] + nodes)[k + 1], (nodes + [s])[k + 1]);
    assert Linked(m, ([s] + nodes)[k], (nodes + [s])[k]);
    assert ([s] + nodes)[0] == s && ([s] + nodes)[k + 1] == nodes[k];
  }

  lemma DistinctWith(s: seq<Address>, t: seq<Address>, node: Address)
    requires Distinct(s) && node !in s
    requires exists k :: 0 <= k <= |s| && t == s[..k] + [node] + s[k..]
    ensures Distinct(t)
  {
  }

  lemma DistinctWithout(s: seq<Address>, k: nat)
    requires Distinct(s) && k < |s|
    ensures Distinct(s[..k] + s[k + 1..])
  {
  }

  /** Inserting before the sentinel appends. */
  lemma InsertBeforeAppends(m: Memory, s: Address, nodes: seq<Address>, node: Address)
    requires Ring(m, s, nodes) && node !in [s] + nodes
    ensures Ring(InsertBefore(m, s, node), s, nodes + [node])
    ensures forall a :: a !in [s] + nodes + [node] ==> SameLinks(m, InsertBefore(m, s, node), a)
  {
    var m', n := InsertBefore(m, s, node), |nodes|;
    var froms, tos := [s] + nodes, nodes + [s];
    assert Linked(m, froms[n], tos[n]);
    assert Prev(m, s) == froms[n] && froms[n] in froms;
    assert [s] + (nodes + [node]) == froms[..n + 1] + [node] + froms[n + 1..];
    DistinctWith(froms, [s] + (nodes + [node]), node);
    forall i | 0 <= i <= n + 1
      ensures Linked(m', ([s] + (nodes + [node]))[i], (nodes + [node] + [s])[i])
    {
      if i < n {
        assert Linked(m, froms[i], tos[i]);
        assert froms[i] != froms[n] && tos[i] == froms[i + 1] != s;
      }
    }
  }

  lemma InsertAfterPrepends(m: Memory, s: Address, nodes: seq<Address>, node: Address)
    requires Ring(m, s, nodes) && node !in [s] + nodes
    ensures Ring(InsertAfter(m, s, node), s, [node] + nodes)
    ensures forall a :: a !in [s] + nodes + [node] ==> SameLinks(m, InsertAfter(m, s, node), a)
  {
    var m' := InsertAfter(m, s, node);
    var froms, tos := [s] + nodes, nodes + [s];
    assert Linked(m, froms[0], tos[0]) && tos[0] in froms;
    assert [s] + ([node] + nodes) == froms[..1] + [node] + froms[1..];
    DistinctWith(froms, [s] + ([node] + nodes), node);
    forall i | 0 <= i <= |nodes| + 1
      ensures Linked(m', ([s] + ([node] + nodes))[i], ([node] + nodes + [s])[i])
    {
      if i >= 2 {
        assert Linked(m, froms[i - 1], tos[i - 1]);
        assert froms[i - 1] != s && tos[i - 1] != tos[0];
      }
    }
  }

  lemma RemoveUnlinks(m: Memory, s: Address, nodes: seq<Address>, k: nat)
    requires Ring(m, s, nodes) && k < |nodes|
    ensures Ring(Remove(m, nodes[k]), s, nodes[..k] + nodes[k + 1..])
    ensures forall a :: a !in [s] + nodes ==> SameLinks(m, Remove(m, nodes[k]), a)
  {
    var m' := Remove(m, nodes[k]);
    var froms, tos := [s] + nodes, nodes + [s];
    var rest := nodes[..k] + nodes[k + 1..];
    assert Linked(m, froms[k], tos[k]) && Linked(m, froms[k + 1], tos[k + 1]);
    assert froms[k + 1] == nodes[k] == tos[k];
    assert froms[k] in froms && tos[k + 1] in froms;
    assert [s] + rest == froms[..k + 1] + froms[k + 2..];
    DistinctWithout(froms, k + 1);
    forall i | 0 <= i <= |rest|
      ensures Linked(m', ([s] + rest)[i], (rest + [s])[i])
    {
      RemoveAt(m, s, nodes, k, i);
    }
  }

  lemma RemoveAt(m: Memory, s: Address, nodes: seq<Address>, k: nat, i: nat)
    requires Ring(m, s, nodes) && k < |nodes| && i < |nodes|
    ensures var rest := nodes[..k] + nodes[k + 1..];
            Linked(Remove(m, nodes[k]), ([s] + rest)[i], (rest + [s])[i])
  {
    var froms, tos := [s] + nodes, nodes + [s];
    assert Linked(m, froms[k], tos[k]) && Linked(m, froms[k + 1], tos[k + 1]);
    if i < k {
      assert Linked(m, froms[i], tos[i]);
    } else if i > k {
      assert Linked(m, froms[i + 1], tos[i + 1]);
    }
  }

  /** A ring has no beginning: the next node may as well be its sentinel. */
  lemma RingTurns(m: Memory, s: Address, z: Address, nodes: seq<Address>)
    requires Ring(m, s, [z] + nodes)
    ensures Ring(m, z, nodes + [s])
  {
    var froms, tos := [s] + ([z] + nodes), [z] + nodes + [s];
    forall i | 0 <= i <= |nodes| + 1
      ensures Linked(m, ([z] + (nodes + [s]))[i], (nodes + [s] + [z])[i])
    {
      if i <= |nodes| {
        assert Linked(m, froms[i + 1], tos[i + 1]);
      } else {
        assert Linked(m, froms[0], tos[0]);
      }
    }
    var all := [z] + (nodes + [s]);
    forall i, j | 0 <= i < j < |all|
      ensures all[i] != all[j]
    {
      assert all[i] == froms[i + 1];
      assert all[j] == if j == |all| - 1 then froms[0] else froms[j + 1];
    }
  }

  /** A new sentinel takes over the whole list, and the old one is out of it. */
  lemma SpliceTakesOver(m: Memory, s: Address, z: Address, nodes: seq<Address>)
    requires Ring(m, s, nodes) && z !in [s] + nodes
    ensures Ring(Remove(InsertAfter(m, s, z), s), z, nodes)
    ensures forall a :: a !in [s] + nodes + [z] ==> SameLinks(m, Remove(InsertAfter(m, s, z), s), a)
  {
    var m1, turned := InsertAfter(m, s, z), nodes + [s];
    InsertAfterPrepends(m, s, nodes, z);
    RingTurns(m1, s, z, nodes);
    RemoveUnlinks(m1, z, turned, |nodes|);
    assert turned[..|nodes|] + turned[|nodes| + 1..] == nodes;
    forall a | a !in [s] + nodes + [z]
      ensures SameLinks(m, Remove(m1, s), a)
    {
      assert a !in [z] + turned;
      assert SameLinks(m, m1, a);
      assert SameLinks(m1, Remove(m1, s), a);
    }
  }

  /** A node that was removed is a list of its own. */
  lemma RemovedAlone(m: Memory, node: Address)
    ensures Ring(Remove(m, node), node, [])
  {
  }
}
