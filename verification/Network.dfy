/** Following the links: where a walk along a list is in the queue. */
module Walks {
  import opened Wrappers
  import opened Nodes
  import opened Pending
  import opened Routing
  import opened Lifetimes
  import opened Links

  function GlobalAt(pending: seq<Request>, i: nat): Address {
    if i < |pending| then GlobalNode(pending[i].id) else GlobalSentinel
  }

  function OwnerAt(pending: seq<Request>, o: Owner, j: nat): Address {
    if j < |Of(pending, o)| then OwnerNode(Of(pending, o)[j].id) else Sentinel(o)
  }

  lemma GlobalWalk(m: Memory, pending: seq<Request>, i: nat)
    requires GlobalRing(m, pending)
    ensures Next(m, GlobalSentinel) == GlobalAt(pending, 0)
    ensures i < |pending| ==> Next(m, GlobalAt(pending, i)) == GlobalAt(pending, i + 1)
  {
    EmptyOrNot(m, GlobalSentinel, GlobalNodes(pending));
    if i < |pending| {
      Follows(m, GlobalSentinel, GlobalNodes(pending), i);
    }
  }

  lemma OwnerWalk(m: Memory, pending: seq<Request>, o: Owner, j: nat)
    requires OwnerRing(m, pending, o)
    ensures Next(m, Sentinel(o)) == OwnerAt(pending, o, 0)
    ensures j < |Of(pending, o)| ==> Next(m, OwnerAt(pending, o, j)) == OwnerAt(pending, o, j + 1)
  {
    EmptyOrNot(m, Sentinel(o), OwnerNodes(Of(pending, o)));
    if j < |Of(pending, o)| {
      Follows(m, Sentinel(o), OwnerNodes(Of(pending, o)), j);
    }
  }

  /** The request at a position of the queue, if there is one. */
  function IdAt(pending: seq<Request>, k: nat): Option<nat> {
    if k < |pending| then Some(pending[k].id) else None
  }

  /** The position in the queue of the request at position `j` of its owner's list. */
  function Position(pending: seq<Request>, o: Owner, j: nat): (k: nat)
    requires j < |Of(pending, o)|
    ensures k < |pending| && pending[k] == Of(pending, o)[j] && pending[k].owner == o
    ensures Of(pending[..k], o) == Of(pending, o)[..j]
  {
    var n := |pending| - 1;
    if j < |Of(pending[..n], o)| then
      var k := Position(pending[..n], o, j);
      assert pending[..n][..k] == pending[..k];
      k
    else n
  }

  lemma {:induction false} FirstIs(pending: seq<Request>, p: Request -> bool, k: nat)
    requires k <= |pending| && (k < |pending| ==> p(pending[k]))
    requires forall i :: 0 <= i < k ==> !p(pending[i])
    ensures First(pending, p) == k
  {
  }

  lemma EarlierIsListed(pending: seq<Request>, o: Owner, k: nat, i: nat)
    requires i < k <= |pending| && pending[i].owner == o
    ensures pending[i] in Of(pending[..k], o)
  {
    OfHas(pending[..k], i);
  }

  /** The head of an owner's list is the owner's oldest request. */
  lemma HeadIsFirst(net: Net, o: Owner)
    requires Of(net.pending, o) != []
    ensures Position(net.pending, o, 0) == FirstOf(net, o)
  {
    var k := Position(net.pending, o, 0);
    forall i | 0 <= i < k
      ensures net.pending[i].owner != o
    {
      if net.pending[i].owner == o {
        EarlierIsListed(net.pending, o, k, i);
      }
    }
    FirstIs(net.pending, (r: Request) => r.owner == o, k);
  }

  /** Searching the client's own list finds the same request as searching the queue. */
  lemma OwnSearch(net: Net, c: nat, matching: Matching, response: Response, j: nat)
    requires var own := Of(net.pending, OfClient(c));
             && j <= |own| && (j < |own| ==> matching(response, own[j].header))
             && forall i :: 0 <= i < j ==> !matching(response, own[i].header)
    ensures OwnAnswered(net, c, matching, response)
         == if j < |Of(net.pending, OfClient(c))| then Position(net.pending, OfClient(c), j) else |net.pending|
  {
    var o := OfClient(c);
    var k := if j < |Of(net.pending, o)| then Position(net.pending, o, j) else |net.pending|;
    assert net.pending[..|net.pending|] == net.pending;
    forall i | 0 <= i < k && net.pending[i].owner == o
      ensures !matching(response, net.pending[i].header)
    {
      EarlierIsListed(net.pending, o, k, i);
    }
    FirstIs(net.pending, (r: Request) => r.owner == o && matching(response, r.header), k);
  }

  // ----- what a state of the network is good for, by name

  type Keeping = (Memory, map<nat, Cell>, map<Owner, nat>, Net) -> bool

  /** `p` says that the memory holds the queue and that what holds of every reachable state holds of it. */
  ghost predicate Means(p: Keeping) {
    forall m, cells, count, net {:trigger Stored(m, cells, count, net)} ::
      p(m, cells, count, net) == (Stored(m, cells, count, net) && Inv(net))
  }

  lemma StartKept(p: Keeping)
    requires Means(p)
    ensures p(Reset(Memory(map[], map[]), GlobalSentinel), map[], map[], START)
  {
    ResetIsEmpty(Memory(map[], map[]), GlobalSentinel);
    assert Stored(Reset(Memory(map[], map[]), GlobalSentinel), map[], map[], START);
  }

  lemma FreedKept(p: Keeping, m: Memory, cells: map<nat, Cell>, count: map<Owner, nat>, net: Net, k: nat)
    requires Means(p) && p(m, cells, count, net) && k < |net.pending|
    ensures var x, o := net.pending[k].id, net.pending[k].owner;
            && x in cells && cells[x] == CellOf(net.pending[k]) && o in count && count[o] > 0
            && p(Remove(Remove(m, GlobalNode(x)), OwnerNode(x)), cells - {x}, count[o := count[o] - 1], Freed(net, k))
  {
    assert Stored(m, cells, count, net);
    FreedStored(m, cells, count, net, k);
    FreedKeeps(net, k);
  }

  lemma AddedIsStored(p: Keeping, m: Memory, cells: map<nat, Cell>, count: map<Owner, nat>, net: Net, c: nat,
                      header: Header)
    requires Means(p) && p(m, cells, count, net) && c in net.clients
    ensures OfClient(c) in count
    ensures Stored(Appended(m, c, net.nextRequest), cells[net.nextRequest := Cell(Some(c), None, header)],
                   count[OfClient(c) := count[OfClient(c)] + 1], Added(net, c, header))
  {
    assert Stored(m, cells, count, net);
    AddedStored(m, cells, count, net, c, header);
  }

  lemma AddedIsGood(p: Keeping, m: Memory, cells: map<nat, Cell>, count: map<Owner, nat>, net: Net, c: nat,
                    header: Header)
    requires Means(p) && p(m, cells, count, net) && c in net.clients && |Of(net.pending, OfClient(c))| < MAX_PENDING
    ensures Inv(Added(net, c, header))
  {
    assert Stored(m, cells, count, net);
    AddedKeeps(net, c, header);
  }

  lemma AddedKept(p: Keeping, m: Memory, cells: map<nat, Cell>, count: map<Owner, nat>, net: Net, c: nat,
                  header: Header)
    requires Means(p) && p(m, cells, count, net) && c in net.clients && |Of(net.pending, OfClient(c))| < MAX_PENDING
    ensures OfClient(c) in count
    ensures p(Appended(m, c, net.nextRequest), cells[net.nextRequest := Cell(Some(c), None, header)],
              count[OfClient(c) := count[OfClient(c)] + 1], Added(net, c, header))
  {
    AddedIsGood(p, m, cells, count, net, c, header);
    AddedIsStored(p, m, cells, count, net, c, header);
  }

  lemma ConnectedKept(p: Keeping, m: Memory, cells: map<nat, Cell>, count: map<Owner, nat>, net: Net, open: bool)
    requires Means(p) && p(m, cells, count, net)
    ensures var c := net.nextClient;
            p(Reset(m, ClientSentinel(c)), cells, count[OfClient(c) := 0], Connected(net, open))
  {
    assert Stored(m, cells, count, net);
    ConnectedStored(m, cells, count, net, open);
    ConnectedKeeps(net, open);
  }

  lemma DeliveredKept(p: Keeping, m: Memory, cells: map<nat, Cell>, count: map<Owner, nat>, net: Net, c: nat,
                      response: Response, w: Write)
    requires Means(p) && p(m, cells, count, net)
    ensures p(m, cells, count, Delivered(net, c, response, w))
  {
    assert Stored(m, cells, count, net);
    DeliveredKeeps(net, c, response, w);
    FewerStored(m, cells, count, net, Delivered(net, c, response, w));
  }

  lemma FinishedKept(p: Keeping, m: Memory, cells: map<nat, Cell>, count: map<Owner, nat>, net: Net, z: nat)
    requires Means(p) && p(m, cells, count, net) && z in net.zombies
    ensures p(m, cells, count, net.(finished := net.finished + {z}))
  {
    assert Stored(m, cells, count, net);
    FewerStored(m, cells, count, net, net.(finished := net.finished + {z}));
  }

  lemma CountKept(p: Keeping, m: Memory, cells: map<nat, Cell>, count: map<Owner, nat>, net: Net, o: Owner)
    requires Means(p) && p(m, cells, count, net) && Live(net, o)
    ensures o in count && count[o] == |Of(net.pending, o)|
  {
    assert Stored(m, cells, count, net);
  }

  lemma ZombifiedIsStored(p: Keeping, m: Memory, cells: map<nat, Cell>, count: map<Owner, nat>, net: Net, c: nat)
    requires Means(p) && p(m, cells, count, net) && c in net.clients
    ensures OfClient(c) in count
    ensures var from, to, ids := OfClient(c), OfZombie(net.nextZombie), Ids(Of(net.pending, OfClient(c)));
            p(Spliced(m, c, net.nextZombie), Reowned(cells, ids, |ids|, net.nextZombie),
              count[to := count[from]][from := 0], Zombified(net, c))
  {
    assert Stored(m, cells, count, net);
    ZombifiedStored(m, cells, count, net, c);
    ZombifiedKeeps(net, c);
  }

  /** The new zombie has the list that the client had. */
  lemma ZombieHasList(p: Keeping, m: Memory, cells: map<nat, Cell>, count: map<Owner, nat>, net: Net, c: nat)
    requires Means(p) && p(m, cells, count, net) && c in net.clients
    ensures Ids(Of(Zombified(net, c).pending, OfZombie(net.nextZombie))) == Ids(Of(net.pending, OfClient(c)))
  {
    assert Stored(m, cells, count, net);
    NoSuchOwner(net, OfZombie(net.nextZombie));
    OfRelabel(net.pending, OfClient(c), OfZombie(net.nextZombie), OfZombie(net.nextZombie));
  }

  lemma ZombifiedKept(p: Keeping, m: Memory, cells: map<nat, Cell>, count: map<Owner, nat>, net: Net, c: nat, z: nat,
                      net': Net)
    requires Means(p) && p(m, cells, count, net) && c in net.clients && z == net.nextZombie && net' == Zombified(net, c)
    ensures OfClient(c) in count
    ensures p(Spliced(m, c, z), Reowned(cells, Ids(Of(net'.pending, OfZombie(z))), |Of(net'.pending, OfZombie(z))|, z),
              count[OfZombie(z) := count[OfClient(c)]][OfClient(c) := 0], net')
  {
    ZombifiedIsStored(p, m, cells, count, net, c);
    ZombieHasList(p, m, cells, count, net, c);
  }

  lemma FreedAllLeaves(p: Keeping, m: Memory, cells: map<nat, Cell>, count: map<Owner, nat>, net: Net, o: Owner)
    requires Means(p) && p(m, cells, count, net)
    ensures Of(FreeAll(net, o).pending, o) == []
  {
    assert Stored(m, cells, count, net);
    FreeAllKeeps(net, o);
  }

  lemma DestroyedLeaves(p: Keeping, m: Memory, cells: map<nat, Cell>, count: map<Owner, nat>, net: Net, c: nat,
                        zombie: bool)
    requires Means(p) && p(m, cells, count, net)
    ensures Of(Destroyed(net, c, zombie).pending, OfClient(c)) == []
  {
    assert Stored(m, cells, count, net);
    DestroyedKeeps(net, c, zombie);
  }

  lemma ClientRemovedKept(p: Keeping, m: Memory, cells: map<nat, Cell>, count: map<Owner, nat>, net: Net, i: nat)
    requires Means(p) && p(m, cells, count, net)
    requires i < |net.clients| && Of(net.pending, OfClient(net.clients[i])) == []
    ensures p(m, cells, count, ClientRemoved(net, i))
  {
    assert Stored(m, cells, count, net);
    ClientRemovedKeeps(net, i);
    CutIsRest(net.clients, i);
    FewerStored(m, cells, count, net, ClientRemoved(net, i));
  }

  lemma ZombieRemovedKept(p: Keeping, m: Memory, cells: map<nat, Cell>, count: map<Owner, nat>, net: Net, i: nat)
    requires Means(p) && p(m, cells, count, net)
    requires i < |net.zombies| && Of(net.pending, OfZombie(net.zombies[i])) == []
    ensures p(m, cells, count, ZombieRemoved(net, i))
  {
    assert Stored(m, cells, count, net);
    ZombieRemovedKeeps(net, i);
    CutIsRest(net.zombies, i);
    FewerStored(m, cells, count, net, ZombieRemoved(net, i));
  }

  lemma ClientsEmptied(p: Keeping, m: Memory, cells: map<nat, Cell>, count: map<Owner, nat>, net: Net,
                       zombie: nat -> bool)
    requires Means(p) && p(m, cells, count, net)
    ensures ClientsDone(DestroyClients(net, 0, zombie), |net.clients|)
  {
    assert Stored(m, cells, count, net);
    AllClientsDone(net, 0, zombie);
  }

  lemma ZombiesEmptied(p: Keeping, m: Memory, cells: map<nat, Cell>, count: map<Owner, nat>, net: Net)
    requires Means(p) && p(m, cells, count, net)
    ensures ZombiesDone(DestroyZombies(net, 0), |net.zombies|)
  {
    assert Stored(m, cells, count, net);
    AllZombiesDone(net, 0);
  }

  lemma ClientsClearedKept(p: Keeping, m: Memory, cells: map<nat, Cell>, count: map<Owner, nat>, net: Net)
    requires Means(p) && p(m, cells, count, net) && ClientsDone(net, |net.clients|)
    ensures p(m, cells, count, net.(clients := []))
  {
    assert Stored(m, cells, count, net);
    ClientsCleared(net);
    FewerStored(m, cells, count, net, net.(clients := []));
  }

  lemma ZombiesClearedKept(p: Keeping, m: Memory, cells: map<nat, Cell>, count: map<Owner, nat>, net: Net)
    requires Means(p) && p(m, cells, count, net) && ZombiesDone(net, |net.zombies|)
    ensures p(m, cells, count, net.(zombies := []))
  {
    assert Stored(m, cells, count, net);
    ZombiesCleared(net);
    FewerStored(m, cells, count, net, net.(zombies := []));
  }

  lemma ClientKept(p: Keeping, m: Memory, cells: map<nat, Cell>, count: map<Owner, nat>, net: Net, c: nat)
    requires Means(p) && p(m, cells, count, net) && c in net.clients
    ensures c in net.client
  {
    assert Stored(m, cells, count, net);
  }

  /** One step along the list of all requests, and what is found there. */
  lemma GlobalStep(p: Keeping, m: Memory, cells: map<nat, Cell>, count: map<Owner, nat>, net: Net, i: nat)
    requires Means(p) && p(m, cells, count, net)
    ensures Next(m, GlobalSentinel) == GlobalAt(net.pending, 0)
    ensures i < |net.pending| ==>
              && Next(m, GlobalAt(net.pending, i)) == GlobalAt(net.pending, i + 1)
              && net.pending[i].id in cells && cells[net.pending[i].id] == CellOf(net.pending[i])
              && Live(net, net.pending[i].owner)
  {
    assert Stored(m, cells, count, net);
    GlobalWalk(m, net.pending, i);
  }

  lemma OwnerStep(p: Keeping, m: Memory, cells: map<nat, Cell>, count: map<Owner, nat>, net: Net, o: Owner, j: nat)
    requires Means(p) && p(m, cells, count, net) && Live(net, o)
    ensures Next(m, Sentinel(o)) == OwnerAt(net.pending, o, 0)
    ensures j < |Of(net.pending, o)| ==>
              && Next(m, OwnerAt(net.pending, o, j)) == OwnerAt(net.pending, o, j + 1)
              && var r := Of(net.pending, o)[j]; r.id in cells && cells[r.id] == CellOf(r)
  {
    assert Stored(m, cells, count, net);
    OwnerWalk(m, net.pending, o, j);
    if j < |Of(net.pending, o)| {
      CellIs(cells, net.pending, Position(net.pending, o, j));
    }
  }
}

/** The network's own state: the two arrays, the lists of pending requests, the counters and the owner pointers. */
module Network {
  import opened Wrappers
  import opened Nodes
  import opened Pending
  import opened Routing
  import opened Lifetimes
  import opened Links
  import opened Walks

  class State {
    const matching: Matching
    var mem: Memory
    var cells: map<nat, Cell>
    var count: map<Owner, nat>
    var clients: seq<nat>
    var client: map<nat, Client>
    var zombies: seq<nat>
    var finished: set<nat>
    var nextRequest: nat
    var nextClient: nat
    var nextZombie: nat
    ghost var net: Net
    ghost const kept: Keeping

    /** The arrays are those of the queue model. */
    ghost predicate Same()
      reads this
    {
      && clients == net.clients && client == net.client && zombies == net.zombies && finished == net.finished
      && nextRequest == net.nextRequest && nextClient == net.nextClient && nextZombie == net.nextZombie
    }

    ghost predicate Valid()
      reads this
    {
      Same() && Means(kept) && kept(mem, cells, count, net)
    }

    constructor (matching: Matching)
      ensures Valid() && net == START && this.matching == matching
    {
      this.matching := matching;
      mem := Reset(Memory(map[], map[]), GlobalSentinel);
      cells, count := map[], map[];
      clients, client, zombies, finished := [], map[], [], {};
      nextRequest, nextClient, nextZombie := 0, 0, 0;
      net := START;
      kept := (m, cells, count, net) => Stored(m, cells, count, net) && Inv(net);
      new;
      StartKept(kept);
    }

    /** A client joins the array, if it can grow and the client can be set up. */
    method CreateClient(appended: bool, created: bool, open: bool) returns (ok: bool)
      requires Valid()
      modifies this
      ensures Valid() && ok == (appended && created)
      ensures net == if ok then Connected(old(net), open) else old(net)
    {
      if !appended {
        return false;
      }
      clients := clients + [nextClient];
      if !created {
        clients := clients[..|clients| - 1];
        return false;
      }
      ok := true;
      ConnectedKept(kept, mem, cells, count, net, open);
      client := client[nextClient := Client(false, open, [])];
      count := count[OfClient(nextClient) := 0];
      mem := Reset(mem, ClientSentinel(nextClient));
      nextClient := nextClient + 1;
      net := Connected(net, open);
    }

    /** Takes request `x`, which is at position `k` of the queue, off its lists and frees it. */
    method RemoveAndFree(x: nat, ghost k: nat)
      requires Valid() && k < |net.pending| && net.pending[k].id == x
      modifies this
      ensures Valid() && net == Freed(old(net), k)
    {
      FreedKept(kept, mem, cells, count, net, k);
      var cell := cells[x];
      mem := Remove(mem, GlobalNode(x));
      mem := Remove(mem, OwnerNode(x));
      if cell.client.Some? {
        var o := OfClient(cell.client.value);
        count := count[o := count[o] - 1];
      }
      if cell.zombie.Some? {
        var o := OfZombie(cell.zombie.value);
        count := count[o := count[o] - 1];
      }
      cells := cells - {x};
      net := Freed(net, k);
    }

    /** Frees the first request of an owner's list. */
    method FreeHead(o: Owner)
      requires Valid() && Live(net, o) && Of(net.pending, o) != []
      modifies this
      ensures Valid() && FirstOf(old(net), o) < |old(net).pending| && net == Freed(old(net), FirstOf(old(net), o))
    {
      OwnerStep(kept, mem, cells, count, net, o, 0);
      HeadIsFirst(net, o);
      var node := Next(mem, Sentinel(o));
      RemoveAndFree(node.request, FirstOf(net, o));
    }

    /** Drops the oldest requests of a client while it has too many. */
    method Trim(c: nat)
      requires Valid() && c in clients
      modifies this
      ensures Valid() && net == Trimmed(old(net), c) && clients == old(clients)
      ensures |Of(net.pending, OfClient(c))| < MAX_PENDING
    {
      var o := OfClient(c);
      CountKept(kept, mem, cells, count, net, o);
      while count[o] >= MAX_PENDING
        invariant Valid() && clients == old(clients) && o in count && count[o] == |Of(net.pending, o)|
        invariant Trimmed(net, c) == Trimmed(old(net), c)
        decreases |net.pending|
      {
        FirstOfExists(net, o);
        FreeHead(o);
        CountKept(kept, mem, cells, count, net, o);
      }
    }

    /** A new request goes to the end of both lists. */
    method Append(c: nat, header: Header)
      requires Valid() && c in clients && |Of(net.pending, OfClient(c))| < MAX_PENDING
      modifies this
      ensures Valid() && net == Added(old(net), c, header)
    {
      var o := OfClient(c);
      AddedKept(kept, mem, cells, count, net, c, header);
      mem := Appended(mem, c, nextRequest);
      count := count[o := count[o] + 1];
      cells := cells[nextRequest := Cell(Some(c), None, header)];
      nextRequest := nextRequest + 1;
      net := Added(net, c, header);
    }

    method Expects(c: nat, header: Header, room: bool)
      requires Valid() && c in clients
      modifies this
      ensures Valid() && net == Expected(old(net), c, header, room)
    {
      Trim(c);
      if room {
        Append(c, header);
      }
    }

    method DropPendingRequests(uid: nat)
      requires Valid()
      modifies this
      ensures Valid() && net == DropFrom(old(net), 0, uid)
    {
      GlobalStep(kept, mem, cells, count, net, 0);
      var node := Next(mem, GlobalSentinel);
      ghost var i := 0;
      while node != GlobalSentinel
        invariant Valid() && i <= |net.pending| && node == GlobalAt(net.pending, i)
        invariant DropFrom(net, i, uid) == DropFrom(old(net), 0, uid)
        decreases |net.pending| - i
      {
        GlobalStep(kept, mem, cells, count, net, i);
        var x, next := node.request, Next(mem, node);
        if cells[x].header.uid == uid {
          RemoveAndFree(x, i);
        } else {
          i := i + 1;
        }
        node := next;
      }
    }

    /** Searches the list of a client for the request that a response answers. */
    method FindOwn(c: nat, response: Response) returns (found: Option<nat>, ghost k: nat)
      requires Valid() && c in clients
      ensures k == OwnAnswered(net, c, matching, response)
      ensures found == IdAt(net.pending, OwnAnswered(net, c, matching, response))
    {
      var o := OfClient(c);
      ghost var j := 0;
      assert Live(net, o);
      OwnerStep(kept, mem, cells, count, net, o, 0);
      var node := Next(mem, ClientSentinel(c));
      while node != ClientSentinel(c)
        invariant j <= |Of(net.pending, o)| && node == OwnerAt(net.pending, o, j)
        invariant forall i :: 0 <= i < j ==> !matching(response, Of(net.pending, o)[i].header)
        decreases |Of(net.pending, o)| - j
      {
        OwnerStep(kept, mem, cells, count, net, o, j);
        if matching(response, cells[node.request].header) {
          OwnSearch(net, c, matching, response, j);
          return Some(node.request), Position(net.pending, o, j);
        }
        node := Next(mem, node);
        j := j + 1;
      }
      OwnSearch(net, c, matching, response, j);
      return None, |net.pending|;
    }

    /** The response goes through the writer of a client. */
    method WriteTo(c: nat, response: Response, w: Write)
      requires Valid() && c in client
      modifies this
      ensures Valid() && net == Delivered(old(net), c, response, w)
    {
      DeliveredKept(kept, mem, cells, count, net, c, response, w);
      match w {
        case Written => client := client[c := client[c].(written := client[c].written + [response])];
        case Refused(d) => client := client[c := client[c].(disconnected := d)];
      }
      net := Delivered(net, c, response, w);
    }

    /** `given` is the request that the response answers, at position `k`, if it is known already. */
    method DispatchToClient(c: nat, given: Option<nat>, ghost k: nat, response: Response, force: bool, ignore: bool,
                            w: Write)
      requires Valid() && c in clients
      requires given == IdAt(net.pending, k)
      modifies this
      ensures Valid() && net == ToClient(old(net), c, k, response, force, ignore, matching, w)
    {
      ClientKept(kept, mem, cells, count, net, c);
      if !ignore && !client[c].open {
        if given.Some? {
          RemoveAndFree(given.value, k);
        }
        return;
      }
      var target := given;
      ghost var at := k;
      if !force && given.None? {
        target, at := FindOwn(c, response);
        if target.None? {
          return;
        }
      }
      if !client[c].disconnected {
        WriteTo(c, response, w);
      }
      if target.Some? {
        RemoveAndFree(target.value, at);
      }
    }

    method DispatchToZombie(z: nat, x: nat, ghost k: nat)
      requires Valid() && k < |net.pending| && net.pending[k] == Request(x, OfZombie(z), net.pending[k].header)
      requires z in zombies
      modifies this
      ensures Valid() && net == ToZombie(old(net), z, k)
    {
      RemoveAndFree(x, k);
      CountKept(kept, mem, cells, count, net, OfZombie(z));
      if count[OfZombie(z)] == 0 {
        FinishedKept(kept, mem, cells, count, net, z);
        finished := finished + {z};
        net := net.(finished := net.finished + {z});
      }
    }

    /** Forces a response on every client. */
    method Broadcast(response: Response, writes: nat -> Write)
      requires Valid()
      modifies this
      ensures Valid() && net == Routing.Broadcast(old(net), 0, response, matching, writes)
    {
      var i := 0;
      while i < |clients|
        invariant Valid()
        invariant Routing.Broadcast(net, i, response, matching, writes)
               == Routing.Broadcast(old(net), 0, response, matching, writes)
        decreases |clients| - i
      {
        ghost var before := net;
        var c := clients[i];
        DispatchToClient(c, None, |net.pending|, response, true, false, writes(c));
        ForcedIsOffered(before, c, response, matching, writes(c));
        i := i + 1;
      }
    }

    /** Searches the list of all requests for the one that a response answers. */
    method Find(response: Response) returns (found: Option<nat>, ghost k: nat)
      requires Valid()
      ensures k == Answered(net, matching, response)
      ensures found == IdAt(net.pending, Answered(net, matching, response))
    {
      k := 0;
      GlobalStep(kept, mem, cells, count, net, 0);
      var node := Next(mem, GlobalSentinel);
      while node != GlobalSentinel
        invariant k <= |net.pending| && node == GlobalAt(net.pending, k)
        invariant forall i :: 0 <= i < k ==> !matching(response, net.pending[i].header)
        decreases |net.pending| - k
      {
        GlobalStep(kept, mem, cells, count, net, k);
        if matching(response, cells[node.request].header) {
          FirstIs(net.pending, (r: Request) => matching(response, r.header), k);
          return Some(node.request), k;
        }
        node := Next(mem, node);
        k := k + 1;
      }
      FirstIs(net.pending, (r: Request) => matching(response, r.header), k);
      return None, k;
    }

    method DispatchResponse(response: Response, writes: nat -> Write)
      requires Valid()
      modifies this
      ensures Valid() && net == Dispatched(old(net), response, matching, writes)
    {
      if response.sequence == 0 {
        if response.announces {
          DropPendingRequests(response.uid);
        }
        Broadcast(response, writes);
      } else if |clients| + |zombies| > 0 {
        var found, k := Find(response);
        if found.None? {
          Broadcast(response, writes);
        } else {
          GlobalStep(kept, mem, cells, count, net, k);
          var cell := cells[found.value];
          if cell.client.Some? {
            DispatchToClient(cell.client.value, found, k, response, false, false, writes(cell.client.value));
          } else {
            DispatchToZombie(cell.zombie.value, found.value, k);
          }
        }
      }
    }

    /** Sets the owner pointers of all requests on the list of a zombie; `ids` are those requests and `before` the cells
        at the start. */
    method HandOver(z: nat, ghost ids: seq<nat>, ghost before: map<nat, Cell>)
      requires Same() && Means(kept) && z in zombies && cells == before
      requires kept(mem, Reowned(before, ids, |ids|, z), count, net) && ids == Ids(Of(net.pending, OfZombie(z)))
      modifies `cells
      ensures Valid()
    {
      ghost var j, after := 0, Reowned(before, ids, |ids|, z);
      OwnerStep(kept, mem, after, count, net, OfZombie(z), 0);
      var node := Next(mem, ZombieSentinel(z));
      while node != ZombieSentinel(z)
        invariant j <= |ids| && node == OwnerAt(net.pending, OfZombie(z), j)
        invariant cells == Reowned(before, ids, j, z)
        decreases |ids| - j
      {
        OwnerStep(kept, mem, after, count, net, OfZombie(z), j);
        var x := node.request;
        ReownedAt(before, ids, j, z, x);
        ReownedAt(before, ids, |ids|, z, x);
        cells := cells[x := cells[x].(client := None, zombie := Some(z))];
        node := Next(mem, node);
        j := j + 1;
      }
    }

    /** The sentinel of a new zombie takes the place of a client's; the owner pointers are still the old ones. */
    method TakeOver(c: nat)
      requires Valid() && c in clients
      modifies this
      ensures Same() && nextZombie == old(nextZombie) + 1 && zombies == old(zombies) + [old(nextZombie)]
      ensures net == Zombified(old(net), c) && cells == old(cells)
      ensures var own := Of(net.pending, OfZombie(old(nextZombie)));
              kept(mem, Reowned(cells, Ids(own), |own|, old(nextZombie)), count, net)
    {
      var z := nextZombie;
      ghost var net' := Zombified(net, c);
      ZombifiedKept(kept, mem, cells, count, net, c, z, net');
      nextZombie, zombies := z + 1, zombies + [z];
      mem, count := Spliced(mem, c, z), count[OfZombie(z) := count[OfClient(c)]][OfClient(c) := 0];
      net := net';
    }

    /** A new zombie takes over the list of a client, unless the zombie cannot be set up. */
    method CreateZombie(c: nat, ok: bool) returns (created: bool)
      requires Valid() && c in clients
      modifies this
      ensures Valid() && created == ok && net == if ok then Zombified(old(net), c) else old(net)
    {
      if ok {
        var z := nextZombie;
        TakeOver(c);
        HandOver(z, Ids(Of(net.pending, OfZombie(z))), cells);
      }
      created := ok;
    }

    /** Frees every request on the list of an owner. */
    method FreeList(o: Owner)
      requires Valid() && Live(net, o)
      modifies this
      ensures Valid() && net == FreeAll(old(net), o)
    {
      OwnerStep(kept, mem, cells, count, net, o, 0);
      while Next(mem, Sentinel(o)) != Sentinel(o)
        invariant Valid() && Live(net, o) && Next(mem, Sentinel(o)) == OwnerAt(net.pending, o, 0)
        invariant FreeAll(net, o) == FreeAll(old(net), o)
        decreases |net.pending|
      {
        FreeHead(o);
        OwnerStep(kept, mem, cells, count, net, o, 0);
      }
      FirstOfExists(net, o);
    }

    method DestroyClient(c: nat, ok: bool)
      requires Valid() && c in clients
      modifies this
      ensures Valid() && net == Destroyed(old(net), c, ok)
    {
      CountKept(kept, mem, cells, count, net, OfClient(c));
      if count[OfClient(c)] > 0 {
        var created := CreateZombie(c, ok);
        if !created {
          FreeList(OfClient(c));
        }
      }
    }

    method DestroyZombie(z: nat)
      requires Valid() && z in zombies
      modifies this
      ensures Valid() && net == FreeAll(old(net), OfZombie(z))
    {
      CountKept(kept, mem, cells, count, net, OfZombie(z));
      FirstOfExists(net, OfZombie(z));
      if count[OfZombie(z)] > 0 {
        FreeList(OfZombie(z));
      }
    }

    /** Removes the clients that are disconnected and the zombies that are finished, from the last to the first. */
    method Cleanup(zombie: nat -> bool)
      requires Valid()
      modifies this
      ensures Valid() && net == Cleaned(old(net), zombie)
    {
      CleanupClients(zombie);
      CleanupZombies();
    }

    method CleanupClients(zombie: nat -> bool)
      requires Valid()
      modifies this
      ensures Valid() && net == CleanClients(old(net), |old(net).clients|, zombie)
    {
      var i: nat := |clients|;
      while i > 0
        invariant Valid() && i <= |clients|
        invariant CleanClients(net, i, zombie) == CleanClients(old(net), |old(net).clients|, zombie)
      {
        i := i - 1;
        RemoveClientAt(i, zombie);
      }
    }

    method RemoveClientAt(i: nat, zombie: nat -> bool)
      requires Valid() && i < |clients|
      modifies this
      ensures Valid() && net == ClientGone(old(net), i, zombie)
    {
      var c := clients[i];
      ClientKept(kept, mem, cells, count, net, c);
      if client[c].disconnected {
        DestroyedLeaves(kept, mem, cells, count, net, c, zombie(c));
        DestroyClient(c, zombie(c));
        ClientRemovedKept(kept, mem, cells, count, net, i);
        clients := clients[..i] + clients[i + 1..];
        net := ClientRemoved(net, i);
      }
    }

    method CleanupZombies()
      requires Valid()
      modifies this
      ensures Valid() && net == CleanZombies(old(net), |old(net).zombies|)
    {
      var i: nat := |zombies|;
      while i > 0
        invariant Valid() && i <= |zombies|
        invariant CleanZombies(net, i) == CleanZombies(old(net), |old(net).zombies|)
      {
        i := i - 1;
        RemoveZombieAt(i);
      }
    }

    method RemoveZombieAt(i: nat)
      requires Valid() && i < |zombies|
      modifies this
      ensures Valid() && net == ZombieGone(old(net), i)
    {
      var z := zombies[i];
      if z in finished {
        FreedAllLeaves(kept, mem, cells, count, net, OfZombie(z));
        DestroyZombie(z);
        ZombieRemovedKept(kept, mem, cells, count, net, i);
        zombies := zombies[..i] + zombies[i + 1..];
        net := ZombieRemoved(net, i);
      }
    }

    method Timeout(z: nat)
      requires Valid() && z in zombies
      modifies this
      ensures Valid() && net == old(net).(finished := old(net).finished + {z})
    {
      FinishedKept(kept, mem, cells, count, net, z);
      finished := finished + {z};
      net := net.(finished := net.finished + {z});
    }

    /** Destroys all clients and then all zombies, those included that the clients left behind. */
    method Exit(zombie: nat -> bool)
      requires Valid()
      modifies this
      ensures Valid() && net == Exited(old(net), zombie)
    {
      ExitClients(zombie);
      ExitZombies();
    }

    method ExitClients(zombie: nat -> bool)
      requires Valid()
      modifies this
      ensures Valid() && net == DestroyClients(old(net), 0, zombie).(clients := [])
    {
      ClientsEmptied(kept, mem, cells, count, net, zombie);
      var i := 0;
      while i < |clients|
        invariant Valid() && clients == old(clients)
        invariant DestroyClients(net, i, zombie) == DestroyClients(old(net), 0, zombie)
        decreases |clients| - i
      {
        DestroyClient(clients[i], zombie(clients[i]));
        i := i + 1;
      }
      ClientsClearedKept(kept, mem, cells, count, net);
      clients := [];
      net := net.(clients := []);
    }

    method ExitZombies()
      requires Valid()
      modifies this
      ensures Valid() && net == DestroyZombies(old(net), 0).(zombies := [])
    {
      ZombiesEmptied(kept, mem, cells, count, net);
      var i := 0;
      while i < |zombies|
        invariant Valid() && zombies == old(zombies)
        invariant DestroyZombies(net, i) == DestroyZombies(old(net), 0)
        decreases |zombies| - i
      {
        DestroyZombie(zombies[i]);
        i := i + 1;
      }
      ZombiesClearedKept(kept, mem, cells, count, net);
      zombies := [];
      net := net.(zombies := []);
    }
  }
}
