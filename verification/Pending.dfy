/** The bookkeeping of pending requests, on sequences: one queue of requests, each with an owner. */
module Pending {
  import opened Counting

  const MAX_PENDING := 32768

  datatype Header = Header(uid: nat, functionId: nat, sequence: nat)

  /** `announces` marks an enumerate callback of type connected or disconnected; `body` stands for the other bytes. */
  datatype Response = Response(uid: nat, sequence: nat, announces: bool, body: nat)

  /** Whether a response answers the request with a given header, which the daemon library decides. */
  type Matching = (Response, Header) -> bool

  datatype Owner = OfClient(client: nat) | OfZombie(zombie: nat)

  datatype Request = Request(id: nat, owner: Owner, header: Header)

  /** `open` says that the client need not authenticate or has done so; `written` is what was sent to it. */
  datatype Client = Client(disconnected: bool, open: bool, written: seq<Response>)

  /** Requests, clients and zombies are numbered as they are allocated, which stands for their addresses. `clients` and
      `zombies` are the two arrays, `client` holds what is behind the pointers, `finished` the zombies so marked and
      `freed` the requests that were freed. */
  datatype Net = Net(pending: seq<Request>, clients: seq<nat>, client: map<nat, Client>,
                     zombies: seq<nat>, finished: set<nat>, freed: seq<nat>,
                     nextRequest: nat, nextClient: nat, nextZombie: nat)

  const START := Net([], [], map[], [], {}, [], 0, 0, 0)

  /** What is behind a client's pointer. */
  function At(net: Net, c: nat): Client {
    if c in net.client then net.client[c] else Client(true, false, [])
  }

  // ----- views of the queue

  /** The requests of one owner, in queue order. */
  function Of(pending: seq<Request>, o: Owner): seq<Request> {
    if pending == [] then []
    else
      var last := pending[|pending| - 1];
      Of(pending[..|pending| - 1], o) + if last.owner == o then [last] else []
  }

  function Ids(pending: seq<Request>): (s: seq<nat>)
    ensures |s| == |pending| && forall i :: 0 <= i < |s| ==> s[i] == pending[i].id
  {
    seq(|pending|, i requires 0 <= i < |pending| => pending[i].id)
  }

  function Without(pending: seq<Request>, k: nat): seq<Request>
    requires k < |pending|
  {
    pending[..k] + pending[k + 1..]
  }

  lemma {:induction false} OfConcat(p: seq<Request>, q: seq<Request>, o: Owner)
    ensures Of(p + q, o) == Of(p, o) + Of(q, o)
    decreases |q|
  {
    if q == [] {
      assert p + q == p;
    } else {
      var n := |q| - 1;
      OfConcat(p, q[..n], o);
      assert (p + q)[..|p + q| - 1] == p + q[..n];
    }
  }

  lemma OfOne(r: Request, o: Owner)
    ensures Of([r], o) == if r.owner == o then [r] else []
  {
    assert [r][..0] == [];
  }

  /** Taking a request out of the queue takes it out of the list of its owner and no other. */
  lemma OfWithout(pending: seq<Request>, k: nat, o: Owner)
    requires k < |pending|
    ensures var at := |Of(pending[..k], o)|;
            if pending[k].owner == o
            then && at < |Of(pending, o)| && Of(pending, o)[at] == pending[k]
                 && Of(Without(pending, k), o) == Of(pending, o)[..at] + Of(pending, o)[at + 1..]
            else Of(Without(pending, k), o) == Of(pending, o)
  {
    var a, r, b := pending[..k], pending[k], pending[k + 1..];
    assert pending == a + [r] + b;
    OfParts(a, r, b, o);
    MiddleOut(Of(a, o), r, Of(b, o));
  }

  lemma OfParts(a: seq<Request>, r: Request, b: seq<Request>, o: Owner)
    ensures Of(a + [r] + b, o) == if r.owner == o then Of(a, o) + [r] + Of(b, o) else Of(a, o) + Of(b, o)
    ensures Of(a + b, o) == Of(a, o) + Of(b, o)
  {
    OfConcat(a + [r], b, o);
    OfConcat(a, [r], o);
    OfOne(r, o);
    OfConcat(a, b, o);
  }

  lemma MiddleOut(x: seq<Request>, r: Request, y: seq<Request>)
    ensures (x + [r] + y)[|x|] == r
    ensures (x + [r] + y)[..|x|] + (x + [r] + y)[|x| + 1..] == x + y
  {
  }

  lemma {:induction false} OfIsSome(pending: seq<Request>, o: Owner, j: nat)
    requires j < |Of(pending, o)|
    ensures exists i :: 0 <= i < |pending| && pending[i] == Of(pending, o)[j] && pending[i].owner == o
  {
    var n := |pending| - 1;
    if j < |Of(pending[..n], o)| {
      OfIsSome(pending[..n], o, j);
      var i :| 0 <= i < n && pending[..n][i] == Of(pending[..n], o)[j] && pending[..n][i].owner == o;
      assert pending[i] == Of(pending, o)[j];
    } else {
      assert pending[n] == Of(pending, o)[j];
    }
  }

  // ----- numbers are accounted for

  /** Each request ever allocated is either still pending or was freed, and that once. */
  ghost predicate Accounted(net: Net) {
    forall x: nat :: Times(net.freed, x) + Times(Ids(net.pending), x) == if x < net.nextRequest then 1 else 0
  }

  lemma IdsWithout(pending: seq<Request>, k: nat, x: nat)
    requires k < |pending|
    ensures Times(Ids(Without(pending, k)), x) + Times([pending[k].id], x) == Times(Ids(pending), x)
  {
    var ids := Ids(pending);
    assert Ids(Without(pending, k)) == ids[..k] + ids[k + 1..];
    assert ids == ids[..k] + [ids[k]] + ids[k + 1..];
    TimesConcat(ids[..k] + [ids[k]], ids[k + 1..], x);
    TimesConcat(ids[..k], [ids[k]], x);
    TimesConcat(ids[..k], ids[k + 1..], x);
  }

  // ----- what holds of every reachable state

  predicate Live(net: Net, o: Owner) {
    match o
    case OfClient(c) => c in net.clients
    case OfZombie(z) => z in net.zombies
  }

  ghost predicate OwnersLive(net: Net) {
    forall r :: r in net.pending ==> Live(net, r.owner)
  }

  ghost predicate Bounded(net: Net) {
    forall o :: |Of(net.pending, o)| <= MAX_PENDING
  }

  ghost predicate NoRepeats(s: seq<nat>) {
    forall i, j :: 0 <= i < j < |s| ==> s[i] != s[j]
  }

  ghost predicate Tables(net: Net) {
    && NoRepeats(net.clients) && NoRepeats(net.zombies)
    && (forall c :: c in net.clients ==> c < net.nextClient && c in net.client)
    && (forall z :: z in net.zombies ==> z < net.nextZombie)
    && (forall z :: z in net.finished ==> z < net.nextZombie)
  }

  ghost predicate Inv(net: Net) {
    Accounted(net) && OwnersLive(net) && Bounded(net) && Tables(net)
  }

  // ----- the elementary changes

  /** The request at position `k` leaves the queue. */
  function Freed(net: Net, k: nat): Net
    requires k < |net.pending|
  {
    net.(pending := Without(net.pending, k), freed := net.freed + [net.pending[k].id])
  }

  lemma FreedKeeps(net: Net, k: nat)
    requires Inv(net) && k < |net.pending|
    ensures Inv(Freed(net, k))
  {
    var net' := Freed(net, k);
    forall x: nat
      ensures Times(net'.freed, x) + Times(Ids(net'.pending), x) == Times(net.freed, x) + Times(Ids(net.pending), x)
    {
      IdsWithout(net.pending, k, x);
      TimesConcat(net.freed, [net.pending[k].id], x);
    }
    forall o
      ensures |Of(net'.pending, o)| <= MAX_PENDING
    {
      OfWithout(net.pending, k, o);
    }
  }

  /** A request of client `c` joins the queue. */
  function Added(net: Net, c: nat, header: Header): Net {
    net.(pending := net.pending + [Request(net.nextRequest, OfClient(c), header)], nextRequest := net.nextRequest + 1)
  }

  lemma OfAppended(pending: seq<Request>, r: Request, o: Owner)
    ensures Of(pending + [r], o) == if r.owner == o then Of(pending, o) + [r] else Of(pending, o)
  {
    OfConcat(pending, [r], o);
    OfOne(r, o);
  }

  lemma AddedBounded(net: Net, r: Request)
    requires Bounded(net) && |Of(net.pending, r.owner)| < MAX_PENDING
    ensures forall o :: |Of(net.pending + [r], o)| <= MAX_PENDING
  {
    forall o
      ensures |Of(net.pending + [r], o)| <= MAX_PENDING
    {
      OfAppended(net.pending, r, o);
    }
  }

  lemma AddedAccounted(net: Net, c: nat, header: Header)
    requires Accounted(net)
    ensures Accounted(Added(net, c, header))
  {
    var n, net' := net.nextRequest, Added(net, c, header);
    assert Ids(net'.pending) == Ids(net.pending) + [n];
    forall x: nat
      ensures Times(Ids(net'.pending), x) == Times(Ids(net.pending), x) + if x == n then 1 else 0
    {
      TimesMore(Ids(net.pending), n, x);
    }
  }

  lemma AddedKeeps(net: Net, c: nat, header: Header)
    requires Inv(net) && c in net.clients && |Of(net.pending, OfClient(c))| < MAX_PENDING
    ensures Inv(Added(net, c, header))
  {
    AddedAccounted(net, c, header);
    AddedBounded(net, Request(net.nextRequest, OfClient(c), header));
  }

  /** All requests of one owner change hands. */
  function Relabel(pending: seq<Request>, from: Owner, to: Owner): (s: seq<Request>)
    ensures |s| == |pending|
  {
    seq(|pending|, i requires 0 <= i < |pending| =>
      if pending[i].owner == from then pending[i].(owner := to) else pending[i])
  }

  lemma RelabelLast(pending: seq<Request>, from: Owner, to: Owner)
    requires pending != []
    ensures var n := |pending| - 1;
            Relabel(pending, from, to) == Relabel(pending[..n], from, to) + Relabel([pending[n]], from, to)
  {
  }

  lemma {:induction false} OfRelabel(pending: seq<Request>, from: Owner, to: Owner, o: Owner)
    requires from != to && Of(pending, to) == []
    ensures Of(Relabel(pending, from, to), o)
         == if o == to then Relabel(Of(pending, from), from, to) else if o == from then [] else Of(pending, o)
  {
    if pending != [] {
      var n := |pending| - 1;
      var p, r := pending[..n], pending[n];
      RelabelLast(pending, from, to);
      OfRelabel(p, from, to, o);
      var r' := if r.owner == from then r.(owner := to) else r;
      assert Relabel([r], from, to) == [r'];
      OfAppended(Relabel(p, from, to), r', o);
      if r.owner == from {
        RelabelAppended(Of(p, from), r, from, to);
      }
    }
  }

  lemma RelabelAppended(pending: seq<Request>, r: Request, from: Owner, to: Owner)
    requires r.owner == from
    ensures Relabel(pending + [r], from, to) == Relabel(pending, from, to) + [r.(owner := to)]
  {
  }

  lemma {:induction false} OfHas(pending: seq<Request>, k: nat)
    requires k < |pending|
    ensures pending[k] in Of(pending, pending[k].owner)
  {
    var n := |pending| - 1;
    if k < n {
      OfHas(pending[..n], k);
    }
  }

  /** A zombie takes over the requests of client `c`. */
  function Zombified(net: Net, c: nat): Net {
    net.(pending := Relabel(net.pending, OfClient(c), OfZombie(net.nextZombie)),
         zombies := net.zombies + [net.nextZombie], nextZombie := net.nextZombie + 1)
  }

  lemma NoSuchOwner(net: Net, o: Owner)
    requires OwnersLive(net) && !Live(net, o)
    ensures Of(net.pending, o) == []
  {
    if Of(net.pending, o) != [] {
      OfIsSome(net.pending, o, 0);
    }
  }

  lemma ZombifiedKeeps(net: Net, c: nat)
    requires Inv(net)
    ensures Inv(Zombified(net, c)) && Of(Zombified(net, c).pending, OfClient(c)) == []
  {
    var from, to := OfClient(c), OfZombie(net.nextZombie);
    var net' := Zombified(net, c);
    NoSuchOwner(net, to);
    assert Ids(net'.pending) == Ids(net.pending);
    forall o
      ensures |Of(net'.pending, o)| <= MAX_PENDING
    {
      OfRelabel(net.pending, from, to, o);
    }
    OfRelabel(net.pending, from, to, from);
    ZombifiedLive(net, c);
  }

  lemma ZombifiedLive(net: Net, c: nat)
    requires OwnersLive(net)
    ensures OwnersLive(Zombified(net, c))
  {
    var net' := Zombified(net, c);
    assert net'.zombies[|net.zombies|] == net.nextZombie;
    forall r | r in net'.pending
      ensures Live(net', r.owner)
    {
      var i :| 0 <= i < |net'.pending| && net'.pending[i] == r;
      assert Live(net, net.pending[i].owner);
      assert forall z :: z in net.zombies ==> z in net'.zombies;
    }
  }

  function Cut(s: seq<nat>, i: nat): seq<nat>
    requires i < |s|
  {
    s[..i] + s[i + 1..]
  }

  lemma CutIsRest(s: seq<nat>, i: nat)
    requires i < |s| && NoRepeats(s)
    ensures NoRepeats(Cut(s, i))
    ensures forall x :: x in Cut(s, i) <==> x in s && x != s[i]
  {
    forall x | x in s && x != s[i]
      ensures x in Cut(s, i)
    {
      var k :| 0 <= k < |s| && s[k] == x;
      assert Cut(s, i)[if k < i then k else k - 1] == x;
    }
  }

  /** A client that has no requests leaves the array. */
  function ClientRemoved(net: Net, i: nat): Net
    requires i < |net.clients|
  {
    net.(clients := Cut(net.clients, i))
  }

  function ZombieRemoved(net: Net, i: nat): Net
    requires i < |net.zombies|
  {
    net.(zombies := Cut(net.zombies, i))
  }

  lemma NotOfNone(pending: seq<Request>, o: Owner, r: Request)
    requires Of(pending, o) == [] && r in pending
    ensures r.owner != o
  {
    var k :| 0 <= k < |pending| && pending[k] == r;
    OfHas(pending, k);
  }

  lemma ClientRemovedKeeps(net: Net, i: nat)
    requires Inv(net) && i < |net.clients| && Of(net.pending, OfClient(net.clients[i])) == []
    ensures Inv(ClientRemoved(net, i))
  {
    CutIsRest(net.clients, i);
    forall r | r in net.pending
      ensures Live(ClientRemoved(net, i), r.owner)
    {
      assert Live(net, r.owner);
      NotOfNone(net.pending, OfClient(net.clients[i]), r);
    }
  }

  lemma ZombieRemovedKeeps(net: Net, i: nat)
    requires Inv(net) && i < |net.zombies| && Of(net.pending, OfZombie(net.zombies[i])) == []
    ensures Inv(ZombieRemoved(net, i))
  {
    CutIsRest(net.zombies, i);
    forall r | r in net.pending
      ensures Live(ZombieRemoved(net, i), r.owner)
    {
      assert Live(net, r.owner);
      NotOfNone(net.pending, OfZombie(net.zombies[i]), r);
    }
  }

  function Connected(net: Net, open: bool): Net {
    net.(clients := net.clients + [net.nextClient], client := net.client[net.nextClient := Client(false, open, [])],
         nextClient := net.nextClient + 1)
  }

  lemma ConnectedKeeps(net: Net, open: bool)
    requires Inv(net)
    ensures Inv(Connected(net, open))
  {
    forall r | r in net.pending
      ensures Live(Connected(net, open), r.owner)
    {
      assert Live(net, r.owner);
    }
    OneMoreName(net.clients, net.nextClient);
  }

  lemma OneMoreName(s: seq<nat>, next: nat)
    requires NoRepeats(s) && forall x :: x in s ==> x < next
    ensures NoRepeats(s + [next])
    ensures forall x :: x in s + [next] <==> x in s || x == next
  {
    assert forall i :: 0 <= i < |s| ==> s[i] in s;
  }
}
