/** How the queue of pending requests is kept in memory: every request is on the list of all requests and on the list
    of its owner, and both lists are in queue order. */
module Links {
  import opened Counting
  import opened Wrappers
  import opened Nodes
  import opened Pending

  function Sentinel(o: Owner): Address {
    match o
    case OfClient(c) => ClientSentinel(c)
    case OfZombie(z) => ZombieSentinel(z)
  }

  function GlobalNodes(pending: seq<Request>): (s: seq<Address>)
    ensures |s| == |pending|
  {
    seq(|pending|, i requires 0 <= i < |pending| => GlobalNode(pending[i].id))
  }

  function OwnerNodes(requests: seq<Request>): (s: seq<Address>)
    ensures |s| == |requests|
  {
    seq(|requests|, i requires 0 <= i < |requests| => OwnerNode(requests[i].id))
  }

  ghost predicate GlobalRing(m: Memory, pending: seq<Request>) {
    Ring(m, GlobalSentinel, GlobalNodes(pending))
  }

  /** The list of an owner is the queue restricted to that owner. */
  ghost predicate OwnerRing(m: Memory, pending: seq<Request>, o: Owner) {
    Ring(m, Sentinel(o), OwnerNodes(Of(pending, o)))
  }

  ghost predicate UniqueIds(pending: seq<Request>) {
    forall i, j :: 0 <= i < j < |pending| ==> pending[i].id != pending[j].id
  }

  lemma InvUniqueIds(net: Net)
    requires Accounted(net)
    ensures UniqueIds(net.pending)
    ensures forall i :: 0 <= i < |net.pending| ==> net.pending[i].id < net.nextRequest
  {
    var ids := Ids(net.pending);
    forall i, j | 0 <= i < j < |ids|
      ensures ids[i] != ids[j]
    {
      assert Times(net.freed, ids[i]) + Times(ids, ids[i]) <= 1;
      if ids[i] == ids[j] {
        TimesTwice(ids, i, j);
      }
    }
    forall i | 0 <= i < |ids|
      ensures ids[i] < net.nextRequest
    {
      TimesIn(ids, i);
      assert Times(net.freed, ids[i]) + Times(ids, ids[i]) >= 1;
    }
  }

  // ----- lists do not share nodes

  ghost predicate IsOwners(pending: seq<Request>, o: Owner, x: nat) {
    exists i :: 0 <= i < |pending| && pending[i].owner == o && pending[i].id == x
  }

  lemma NodeIsOwners(pending: seq<Request>, o: Owner, a: Address)
    requires a in OwnerNodes(Of(pending, o))
    ensures a.OwnerNode? && IsOwners(pending, o, a.request)
  {
    var j :| 0 <= j < |Of(pending, o)| && OwnerNodes(Of(pending, o))[j] == a;
    OfIsSome(pending, o, j);
  }

  lemma OwnersApart(pending: seq<Request>, o: Owner, o': Owner, a: Address)
    requires UniqueIds(pending) && o != o' && a in [Sentinel(o)] + OwnerNodes(Of(pending, o))
    ensures a !in [Sentinel(o')] + OwnerNodes(Of(pending, o'))
  {
    if a in OwnerNodes(Of(pending, o)) {
      NodeIsOwners(pending, o, a);
    }
    if a in OwnerNodes(Of(pending, o')) {
      NodeIsOwners(pending, o', a);
    }
  }

  /** Whatever leaves the links of an owner's list alone keeps that list. */
  lemma OwnerRingFrame(m: Memory, m': Memory, pending: seq<Request>, o: Owner)
    requires OwnerRing(m, pending, o)
    requires forall a :: a in [Sentinel(o)] + OwnerNodes(Of(pending, o)) ==> SameLinks(m, m', a)
    ensures OwnerRing(m', pending, o)
  {
    RingFrame(m, m', Sentinel(o), OwnerNodes(Of(pending, o)));
  }

  // ----- a request leaves both lists

  lemma GlobalRemoved(m: Memory, pending: seq<Request>, k: nat)
    requires GlobalRing(m, pending) && k < |pending|
    ensures var m' := Remove(m, GlobalNode(pending[k].id));
            && GlobalRing(m', Without(pending, k))
            && forall o :: OwnerRing(m, pending, o) ==> OwnerRing(m', pending, o)
  {
    var nodes := GlobalNodes(pending);
    var m' := Remove(m, nodes[k]);
    RemoveUnlinks(m, GlobalSentinel, nodes, k);
    assert GlobalNodes(Without(pending, k)) == nodes[..k] + nodes[k + 1..];
    forall o | OwnerRing(m, pending, o)
      ensures OwnerRing(m', pending, o)
    {
      NoGlobal(pending, o);
      OwnerRingFrame(m, m', pending, o);
    }
  }

  lemma NoGlobal(pending: seq<Request>, o: Owner)
    ensures forall a :: a in [Sentinel(o)] + OwnerNodes(Of(pending, o)) ==> !a.GlobalNode? && a != GlobalSentinel
  {
  }

  /** Whatever changes only links of owners' lists keeps the list of all requests. */
  lemma GlobalRingFrame(m: Memory, m': Memory, pending: seq<Request>)
    requires GlobalRing(m, pending)
    requires forall a: Address :: a.GlobalNode? || a == GlobalSentinel ==> SameLinks(m, m', a)
    ensures GlobalRing(m', pending)
  {
    RingFrame(m, m', GlobalSentinel, GlobalNodes(pending));
  }

  lemma OtherOwnerKeeps(m: Memory, m': Memory, pending: seq<Request>, o: Owner, o': Owner)
    requires UniqueIds(pending) && o != o' && OwnerRing(m, pending, o')
    requires forall a :: a !in [Sentinel(o)] + OwnerNodes(Of(pending, o)) ==> SameLinks(m, m', a)
    ensures OwnerRing(m', pending, o')
  {
    forall a | a in [Sentinel(o')] + OwnerNodes(Of(pending, o'))
      ensures SameLinks(m, m', a)
    {
      OwnersApart(pending, o', o, a);
    }
    OwnerRingFrame(m, m', pending, o');
  }

  lemma OwnerRemoved(m: Memory, pending: seq<Request>, k: nat)
    requires k < |pending| && GlobalRing(m, Without(pending, k)) && OwnerRing(m, pending, pending[k].owner)
    requires UniqueIds(pending)
    ensures var m' := Remove(m, OwnerNode(pending[k].id));
            && GlobalRing(m', Without(pending, k))
            && forall o :: OwnerRing(m, pending, o) ==> OwnerRing(m', Without(pending, k), o)
  {
    var o, at := pending[k].owner, |Of(pending[..k], pending[k].owner)|;
    OfWithout(pending, k, o);
    var nodes := OwnerNodes(Of(pending, o));
    var m' := Remove(m, nodes[at]);
    RemoveUnlinks(m, Sentinel(o), nodes, at);
    NoGlobal(pending, o);
    GlobalRingFrame(m, m', Without(pending, k));
    assert OwnerNodes(Of(Without(pending, k), o)) == nodes[..at] + nodes[at + 1..];
    forall o' | o' != o && OwnerRing(m, pending, o')
      ensures OwnerRing(m', Without(pending, k), o')
    {
      OfWithout(pending, k, o');
      OtherOwnerKeeps(m, m', pending, o, o');
    }
  }

  // ----- the whole

  /** The links hold the queue: the list of all requests and the list of each client and zombie. */
  ghost predicate Tied(m: Memory, net: Net) {
    && GlobalRing(m, net.pending)
    && forall o :: Live(net, o) ==> OwnerRing(m, net.pending, o)
  }

  /** Taking a request off its two lists is what freeing it means for the queue. */
  lemma FreedTied(m: Memory, net: Net, k: nat)
    requires Tied(m, net) && Accounted(net) && OwnersLive(net) && k < |net.pending|
    ensures var x := net.pending[k].id;
            Tied(Remove(Remove(m, GlobalNode(x)), OwnerNode(x)), Freed(net, k))
  {
    InvUniqueIds(net);
    assert Live(net, net.pending[k].owner);
    GlobalRemoved(m, net.pending, k);
    var m1 := Remove(m, GlobalNode(net.pending[k].id));
    assert OwnerRing(m1, net.pending, net.pending[k].owner);
    OwnerRemoved(m1, net.pending, k);
    forall o | Live(Freed(net, k), o)
      ensures OwnerRing(Remove(m1, OwnerNode(net.pending[k].id)), Freed(net, k).pending, o)
    {
      assert Live(net, o);
      assert OwnerRing(m1, net.pending, o);
    }
  }

  // ----- a request joins both lists

  /** The links after request `x` of client `c` was put at the end of both lists. */
  function Appended(m: Memory, c: nat, x: nat): Memory {
    InsertBefore(InsertBefore(m, GlobalSentinel, GlobalNode(x)), ClientSentinel(c), OwnerNode(x))
  }

  lemma AddedTied(m: Memory, net: Net, c: nat, header: Header)
    requires Tied(m, net) && Accounted(net) && c in net.clients
    ensures var x := net.nextRequest;
            Tied(Appended(m, c, x), Added(net, c, header))
  {
    var x, o := net.nextRequest, OfClient(c);
    var r := Request(x, o, header);
    var pending, pending' := net.pending, net.pending + [r];
    InvUniqueIds(net);
    assert Live(net, o);
    GlobalAdded(m, pending, r);
    var m1 := InsertBefore(m, GlobalSentinel, GlobalNode(x));
    assert OwnerRing(m1, pending, o);
    OwnerAdded(m1, pending, r);
    var m2 := InsertBefore(m1, ClientSentinel(c), OwnerNode(x));
    forall o' | Live(Added(net, c, header), o')
      ensures OwnerRing(m2, pending', o')
    {
      assert Live(net, o');
      assert OwnerRing(m1, pending, o');
    }
  }

  ghost predicate FreshId(pending: seq<Request>, x: nat) {
    forall i :: 0 <= i < |pending| ==> pending[i].id != x
  }

  lemma GlobalAdded(m: Memory, pending: seq<Request>, r: Request)
    requires GlobalRing(m, pending) && FreshId(pending, r.id)
    ensures var m' := InsertBefore(m, GlobalSentinel, GlobalNode(r.id));
            && GlobalRing(m', pending + [r])
            && forall o :: OwnerRing(m, pending, o) ==> OwnerRing(m', pending, o)
  {
    var nodes := GlobalNodes(pending);
    var m' := InsertBefore(m, GlobalSentinel, GlobalNode(r.id));
    InsertBeforeAppends(m, GlobalSentinel, nodes, GlobalNode(r.id));
    assert GlobalNodes(pending + [r]) == nodes + [GlobalNode(r.id)];
    forall o | OwnerRing(m, pending, o)
      ensures OwnerRing(m', pending, o)
    {
      NoGlobal(pending, o);
      OwnerRingFrame(m, m', pending, o);
    }
  }

  lemma OwnerFresh(pending: seq<Request>, o: Owner, x: nat)
    requires FreshId(pending, x)
    ensures OwnerNode(x) !in [Sentinel(o)] + OwnerNodes(Of(pending, o))
  {
    if OwnerNode(x) in OwnerNodes(Of(pending, o)) {
      NodeIsOwners(pending, o, OwnerNode(x));
    }
  }

  lemma OwnerAdded(m: Memory, pending: seq<Request>, r: Request)
    requires GlobalRing(m, pending + [r]) && OwnerRing(m, pending, r.owner)
    requires UniqueIds(pending) && FreshId(pending, r.id)
    ensures var m' := InsertBefore(m, Sentinel(r.owner), OwnerNode(r.id));
            && GlobalRing(m', pending + [r])
            && forall o :: OwnerRing(m, pending, o) ==> OwnerRing(m', pending + [r], o)
  {
    var o, node := r.owner, OwnerNode(r.id);
    var nodes := OwnerNodes(Of(pending, o));
    var m' := InsertBefore(m, Sentinel(o), node);
    OwnerFresh(pending, o, r.id);
    InsertBeforeAppends(m, Sentinel(o), nodes, node);
    NoGlobal(pending, o);
    GlobalRingFrame(m, m', pending + [r]);
    OfAppended(pending, r, o);
    assert OwnerNodes(Of(pending + [r], o)) == nodes + [node];
    forall o' | o' != o && OwnerRing(m, pending, o')
      ensures OwnerRing(m', pending + [r], o')
    {
      OfAppended(pending, r, o');
      forall a | a in [Sentinel(o')] + OwnerNodes(Of(pending, o'))
        ensures SameLinks(m, m', a)
      {
        OwnersApart(pending, o', o, a);
        OwnerFresh(pending, o', r.id);
      }
      OwnerRingFrame(m, m', pending, o');
    }
  }

  // ----- a zombie takes over a list

  lemma RelabelKeepsNodes(requests: seq<Request>, from: Owner, to: Owner)
    ensures OwnerNodes(Relabel(requests, from, to)) == OwnerNodes(requests)
    ensures GlobalNodes(Relabel(requests, from, to)) == GlobalNodes(requests)
  {
  }

  /** The links after a zombie's sentinel was put in the place of a client's. */
  function Spliced(m: Memory, c: nat, z: nat): Memory {
    Remove(InsertAfter(m, ClientSentinel(c), ZombieSentinel(z)), ClientSentinel(c))
  }

  lemma SplicedOther(m: Memory, pending: seq<Request>, c: nat, z: nat, o: Owner)
    requires UniqueIds(pending) && OwnerRing(m, pending, OfClient(c)) && OwnerRing(m, pending, o)
    requires o != OfClient(c) && o != OfZombie(z)
    ensures OwnerRing(Spliced(m, c, z), pending, o)
  {
    var nodes := OwnerNodes(Of(pending, OfClient(c)));
    SpliceTakesOver(m, ClientSentinel(c), ZombieSentinel(z), nodes);
    forall a | a in [Sentinel(o)] + OwnerNodes(Of(pending, o))
      ensures SameLinks(m, Spliced(m, c, z), a)
    {
      OwnersApart(pending, o, OfClient(c), a);
    }
    OwnerRingFrame(m, Spliced(m, c, z), pending, o);
  }

  lemma ZombifiedTied(m: Memory, net: Net, c: nat)
    requires Tied(m, net) && Inv(net) && c in net.clients
    ensures Tied(Spliced(m, c, net.nextZombie), Zombified(net, c))
  {
    var z, from, to, p := net.nextZombie, OfClient(c), OfZombie(net.nextZombie), net.pending;
    var m', p' := Spliced(m, c, z), Relabel(net.pending, from, to);
    InvUniqueIds(net);
    assert Live(net, from);
    var nodes := OwnerNodes(Of(p, from));
    SpliceTakesOver(m, ClientSentinel(c), ZombieSentinel(z), nodes);
    NoGlobal(p, from);
    GlobalRingFrame(m, m', p);
    RelabelKeepsNodes(p, from, to);
    NoSuchOwner(net, to);
    forall o | Live(Zombified(net, c), o)
      ensures OwnerRing(m', p', o)
    {
      OfRelabel(p, from, to, o);
      if o == to {
        RelabelKeepsNodes(Of(p, from), from, to);
      } else if o == from {
        RemovedAlone(InsertAfter(m, ClientSentinel(c), ZombieSentinel(z)), ClientSentinel(c));
      } else {
        assert Live(net, o);
        SplicedOther(m, p, c, z, o);
      }
    }
  }

  lemma ConnectedTied(m: Memory, net: Net, open: bool)
    requires Tied(m, net) && Inv(net)
    ensures Tied(Reset(m, ClientSentinel(net.nextClient)), Connected(net, open))
  {
    var c, p := net.nextClient, net.pending;
    var m' := Reset(m, ClientSentinel(c));
    ResetIsEmpty(m, ClientSentinel(c));
    GlobalRingFrame(m, m', p);
    NoSuchOwner(net, OfClient(c));
    forall o | Live(Connected(net, open), o)
      ensures OwnerRing(m', p, o)
    {
      if o != OfClient(c) {
        assert Live(net, o);
        OwnerRingFrame(m, m', p, o);
      }
    }
  }

  // ----- what the requests and their owners hold

  /** A pending request as it is in memory: one of the two pointers is set. */
  datatype Cell = Cell(client: Option<nat>, zombie: Option<nat>, header: Header)

  predicate PointsTo(cell: Cell, o: Owner) {
    match o
    case OfClient(c) => cell.client == Some(c) && cell.zombie == None
    case OfZombie(z) => cell.zombie == Some(z) && cell.client == None
  }

  function CellOf(r: Request): Cell {
    match r.owner
    case OfClient(c) => Cell(Some(c), None, r.header)
    case OfZombie(z) => Cell(None, Some(z), r.header)
  }

  /** Exactly the requests in the queue are allocated, each with a pointer to its owner. */
  ghost predicate Celled(cells: map<nat, Cell>, pending: seq<Request>) {
    && (forall i :: 0 <= i < |pending| ==> pending[i].id in cells && cells[pending[i].id] == CellOf(pending[i]))
    && (forall x :: x in cells ==> x in Ids(pending))
  }

  /** The counter of each client and zombie is the length of its list. */
  ghost predicate Counted(count: map<Owner, nat>, net: Net) {
    forall o :: Live(net, o) ==> o in count && count[o] == |Of(net.pending, o)|
  }

  lemma FreedCelled(cells: map<nat, Cell>, pending: seq<Request>, k: nat)
    requires Celled(cells, pending) && UniqueIds(pending) && k < |pending|
    ensures Celled(cells - {pending[k].id}, Without(pending, k))
  {
    var x, ids := pending[k].id, Ids(Without(pending, k));
    forall y | y in cells && y != x
      ensures y in ids
    {
      var i :| 0 <= i < |pending| && Ids(pending)[i] == y;
      assert ids[if i < k then i else i - 1] == y;
    }
  }

  lemma FreedCounted(count: map<Owner, nat>, net: Net, k: nat)
    requires Counted(count, net) && OwnersLive(net) && k < |net.pending|
    ensures var o := net.pending[k].owner;
            o in count && count[o] > 0 && Counted(count[o := count[o] - 1], Freed(net, k))
  {
    var o := net.pending[k].owner;
    assert Live(net, o);
    OfWithout(net.pending, k, o);
    forall o' | Live(Freed(net, k), o') && o' != o
      ensures o' in count && count[o'] == |Of(Freed(net, k).pending, o')|
    {
      assert Live(net, o');
      OfWithout(net.pending, k, o');
    }
  }

  lemma AddedCelled(cells: map<nat, Cell>, pending: seq<Request>, r: Request)
    requires Celled(cells, pending) && FreshId(pending, r.id)
    ensures Celled(cells[r.id := CellOf(r)], pending + [r])
  {
    assert Ids(pending + [r]) == Ids(pending) + [r.id];
  }

  lemma AddedCounted(count: map<Owner, nat>, net: Net, c: nat, header: Header)
    requires Counted(count, net) && c in net.clients
    ensures var o := OfClient(c);
            o in count && Counted(count[o := count[o] + 1], Added(net, c, header))
  {
    var r := Request(net.nextRequest, OfClient(c), header);
    assert Live(net, OfClient(c));
    forall o | Live(Added(net, c, header), o)
      ensures |Of(net.pending + [r], o)| == |Of(net.pending, o)| + if o == OfClient(c) then 1 else 0
    {
      assert Live(net, o);
      OfAppended(net.pending, r, o);
    }
  }

  // ----- all of it together

  ghost predicate Stored(m: Memory, cells: map<nat, Cell>, count: map<Owner, nat>, net: Net) {
    Tied(m, net) && Celled(cells, net.pending) && Counted(count, net)
  }

  lemma CellIs(cells: map<nat, Cell>, pending: seq<Request>, k: nat)
    requires Celled(cells, pending) && k < |pending|
    ensures pending[k].id in cells && cells[pending[k].id] == CellOf(pending[k])
  {
  }

  lemma FreedStored(m: Memory, cells: map<nat, Cell>, count: map<Owner, nat>, net: Net, k: nat)
    requires Stored(m, cells, count, net) && Inv(net) && k < |net.pending|
    ensures var x, o := net.pending[k].id, net.pending[k].owner;
            && x in cells && cells[x] == CellOf(net.pending[k]) && o in count && count[o] > 0
            && Stored(Remove(Remove(m, GlobalNode(x)), OwnerNode(x)), cells - {x}, count[o := count[o] - 1],
                      Freed(net, k))
  {
    InvUniqueIds(net);
    CellIs(cells, net.pending, k);
    FreedTied(m, net, k);
    FreedCelled(cells, net.pending, k);
    FreedCounted(count, net, k);
  }

  lemma AddedStored(m: Memory, cells: map<nat, Cell>, count: map<Owner, nat>, net: Net, c: nat, header: Header)
    requires Stored(m, cells, count, net) && Inv(net) && c in net.clients
    ensures var x, o := net.nextRequest, OfClient(c);
            && o in count
            && Stored(Appended(m, c, x), cells[x := Cell(Some(c), None, header)], count[o := count[o] + 1],
                      Added(net, c, header))
  {
    InvUniqueIds(net);
    AddedTied(m, net, c, header);
    AddedCelled(cells, net.pending, Request(net.nextRequest, OfClient(c), header));
    AddedCounted(count, net, c, header);
  }

  lemma ConnectedStored(m: Memory, cells: map<nat, Cell>, count: map<Owner, nat>, net: Net, open: bool)
    requires Stored(m, cells, count, net) && Inv(net)
    ensures var c := net.nextClient;
            Stored(Reset(m, ClientSentinel(c)), cells, count[OfClient(c) := 0], Connected(net, open))
  {
    ConnectedTied(m, net, open);
    NoSuchOwner(net, OfClient(net.nextClient));
    forall o | Live(Connected(net, open), o) && o != OfClient(net.nextClient)
      ensures o in count && count[o] == |Of(net.pending, o)|
    {
      assert Live(net, o);
    }
  }

  /** Owners only leave the arrays; the rest of the state is as before. */
  lemma FewerStored(m: Memory, cells: map<nat, Cell>, count: map<Owner, nat>, net: Net, net': Net)
    requires Stored(m, cells, count, net) && net'.pending == net.pending
    requires forall o :: Live(net', o) ==> Live(net, o)
    ensures Stored(m, cells, count, net')
  {
    forall o | Live(net', o)
      ensures OwnerRing(m, net'.pending, o) && o in count && count[o] == |Of(net'.pending, o)|
    {
      assert Live(net, o);
    }
  }

  // ----- owner pointers are rewritten

  /** The cells after the first `n` of the requests in `ids` were handed to zombie `z`. */
  function Reowned(cells: map<nat, Cell>, ids: seq<nat>, n: nat, z: nat): map<nat, Cell>
    requires n <= |ids|
  {
    if n == 0 then cells
    else
      var before, x := Reowned(cells, ids, n - 1, z), ids[n - 1];
      if x in before then before[x := before[x].(client := None, zombie := Some(z))] else before
  }

  lemma {:induction false} ReownedAt(cells: map<nat, Cell>, ids: seq<nat>, n: nat, z: nat, x: nat)
    requires n <= |ids|
    ensures var after := Reowned(cells, ids, n, z);
            && (x in after <==> x in cells)
            && (x in cells ==>
                  after[x] == if x in ids[..n] then cells[x].(client := None, zombie := Some(z)) else cells[x])
  {
    if n > 0 {
      ReownedAt(cells, ids, n - 1, z, x);
      assert ids[..n] == ids[..n - 1] + [ids[n - 1]];
    }
  }

  lemma OwnIds(pending: seq<Request>, o: Owner, i: nat)
    requires UniqueIds(pending) && i < |pending|
    ensures pending[i].id in Ids(Of(pending, o)) <==> pending[i].owner == o
  {
    if pending[i].owner == o {
      OfHas(pending, i);
      var j :| 0 <= j < |Of(pending, o)| && Of(pending, o)[j] == pending[i];
      assert Ids(Of(pending, o))[j] == pending[i].id;
    } else if pending[i].id in Ids(Of(pending, o)) {
      var j :| 0 <= j < |Of(pending, o)| && Ids(Of(pending, o))[j] == pending[i].id;
      OfIsSome(pending, o, j);
    }
  }

  lemma ReownedCelled(cells: map<nat, Cell>, pending: seq<Request>, c: nat, z: nat)
    requires Celled(cells, pending) && UniqueIds(pending)
    ensures var ids := Ids(Of(pending, OfClient(c)));
            Celled(Reowned(cells, ids, |ids|, z), Relabel(pending, OfClient(c), OfZombie(z)))
  {
    var from, to := OfClient(c), OfZombie(z);
    var ids := Ids(Of(pending, from));
    var after := Reowned(cells, ids, |ids|, z);
    assert ids[..|ids|] == ids;
    assert Ids(Relabel(pending, from, to)) == Ids(pending);
    forall i | 0 <= i < |pending|
      ensures pending[i].id in after && after[pending[i].id] == CellOf(Relabel(pending, from, to)[i])
    {
      OwnIds(pending, from, i);
      ReownedAt(cells, ids, |ids|, z, pending[i].id);
    }
    forall x | x in after
      ensures x in Ids(pending)
    {
      ReownedAt(cells, ids, |ids|, z, x);
    }
  }

  lemma ZombifiedCounted(count: map<Owner, nat>, net: Net, c: nat)
    requires Counted(count, net) && Inv(net) && c in net.clients
    ensures var from, to := OfClient(c), OfZombie(net.nextZombie);
            from in count && Counted(count[to := count[from]][from := 0], Zombified(net, c))
  {
    var from, to := OfClient(c), OfZombie(net.nextZombie);
    NoSuchOwner(net, to);
    assert Live(net, from);
    forall o | Live(Zombified(net, c), o)
      ensures o in count[to := count[from]][from := 0]
      ensures count[to := count[from]][from := 0][o] == |Of(Zombified(net, c).pending, o)|
    {
      OfRelabel(net.pending, from, to, o);
      if o != from && o != to {
        assert Live(net, o);
      }
    }
  }

  lemma ZombifiedStored(m: Memory, cells: map<nat, Cell>, count: map<Owner, nat>, net: Net, c: nat)
    requires Stored(m, cells, count, net) && Inv(net) && c in net.clients
    ensures var from, to, ids := OfClient(c), OfZombie(net.nextZombie), Ids(Of(net.pending, OfClient(c)));
            && from in count
            && Stored(Spliced(m, c, net.nextZombie), Reowned(cells, ids, |ids|, net.nextZombie),
                      count[to := count[from]][from := 0], Zombified(net, c))
  {
    InvUniqueIds(net);
    ZombifiedTied(m, net, c);
    ReownedCelled(cells, net.pending, c, net.nextZombie);
    ZombifiedCounted(count, net, c);
  }

  /** Every request in the queue is on the list of its owner and on no other owner's, its one owner pointer says which,
      and the counter of each owner is the length of its list and within the limit. */
  lemma OnOneOwnersList(m: Memory, cells: map<nat, Cell>, count: map<Owner, nat>, net: Net, k: nat, o: Owner)
    requires Stored(m, cells, count, net) && Inv(net) && k < |net.pending| && Live(net, o)
    ensures var r := net.pending[k];
            && Live(net, r.owner) && r.id in cells && r.id in Ids(net.pending)
            && (OwnerNode(r.id) in OwnerNodes(Of(net.pending, o)) <==> r.owner == o)
            && (PointsTo(cells[r.id], o) <==> r.owner == o)
    ensures o in count && count[o] == |OwnerNodes(Of(net.pending, o))| <= MAX_PENDING
  {
    var r := net.pending[k];
    InvUniqueIds(net);
    CellIs(cells, net.pending, k);
    OwnIds(net.pending, o, k);
    NodesAreIds(Of(net.pending, o), r.id);
    assert Ids(net.pending)[k] == r.id;
  }

  lemma NodesAreIds(requests: seq<Request>, x: nat)
    ensures OwnerNode(x) in OwnerNodes(requests) <==> x in Ids(requests)
  {
    if x in Ids(requests) {
      var i :| 0 <= i < |requests| && Ids(requests)[i] == x;
      assert OwnerNodes(requests)[i] == OwnerNode(x);
    }
  }
}
