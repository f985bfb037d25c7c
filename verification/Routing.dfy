/** What the network does with requests and responses, over the queue of pending requests. */
module Routing {
  import opened Pending

  /** What the writer of a client makes of a response; a failure may mark the client as disconnected. */
  datatype Write = Written | Refused(disconnects: bool)

  // ----- finding and releasing

  /** The first position that satisfies `p`, the length if there is none. */
  function First(pending: seq<Request>, p: Request -> bool): (k: nat)
    ensures k <= |pending| && (k < |pending| ==> p(pending[k]))
    ensures forall i :: 0 <= i < k ==> !p(pending[i])
  {
    if pending == [] || p(pending[0]) then 0 else 1 + First(pending[1..], p)
  }

  function FirstOf(net: Net, o: Owner): nat {
    First(net.pending, (r: Request) => r.owner == o)
  }

  function Answered(net: Net, matching: Matching, response: Response): nat {
    First(net.pending, (r: Request) => matching(response, r.header))
  }

  function OwnAnswered(net: Net, c: nat, matching: Matching, response: Response): nat {
    First(net.pending, (r: Request) => r.owner == OfClient(c) && matching(response, r.header))
  }

  /** Frees the request at position `k`, if there is one. */
  function Release(net: Net, k: nat): Net {
    if k < |net.pending| then Freed(net, k) else net
  }

  lemma FirstOfExists(net: Net, o: Owner)
    ensures FirstOf(net, o) < |net.pending| <==> Of(net.pending, o) != []
  {
    var k := FirstOf(net, o);
    if k < |net.pending| {
      OfHas(net.pending, k);
    } else if Of(net.pending, o) != [] {
      OfIsSome(net.pending, o, 0);
    }
  }

  lemma HeadOfOwner(net: Net, o: Owner)
    requires FirstOf(net, o) < |net.pending|
    ensures Of(net.pending, o) != [] && Of(net.pending, o)[0] == net.pending[FirstOf(net, o)]
    ensures Of(Freed(net, FirstOf(net, o)).pending, o) == Of(net.pending, o)[1..]
  {
    var k := FirstOf(net, o);
    OfWithout(net.pending, k, o);
    if Of(net.pending[..k], o) != [] {
      OfIsSome(net.pending[..k], o, 0);
    }
  }

  /** Frees every request of an owner, oldest first. */
  function FreeAll(net: Net, o: Owner): (net': Net)
    ensures net' == net.(pending := net'.pending, freed := net'.freed)
    decreases |net.pending|
  {
    var k := FirstOf(net, o);
    if k < |net.pending| then FreeAll(Freed(net, k), o) else net
  }

  lemma {:induction false} FreeAllKeeps(net: Net, o: Owner)
    requires Inv(net)
    ensures Inv(FreeAll(net, o)) && Of(FreeAll(net, o).pending, o) == []
    decreases |net.pending|
  {
    var k := FirstOf(net, o);
    FirstOfExists(net, o);
    if k < |net.pending| {
      FreedKeeps(net, k);
      FreeAllKeeps(Freed(net, k), o);
    }
  }

  // ----- a request that expects a response

  /** Drops the oldest requests of a client until there is room for one more. */
  function Trimmed(net: Net, c: nat): Net
    decreases |net.pending|
  {
    var k := FirstOf(net, OfClient(c));
    if |Of(net.pending, OfClient(c))| >= MAX_PENDING && k < |net.pending| then Trimmed(Freed(net, k), c) else net
  }

  function Expected(net: Net, c: nat, header: Header, room: bool): Net {
    if room then Added(Trimmed(net, c), c, header) else Trimmed(net, c)
  }

  /** A full list loses its oldest request and no other one. */
  lemma TrimsOldest(net: Net, c: nat)
    requires Inv(net)
    ensures Trimmed(net, c) == if |Of(net.pending, OfClient(c))| == 32768
                               then Release(net, FirstOf(net, OfClient(c))) else net
    ensures |Of(Trimmed(net, c).pending, OfClient(c))| < 32768
  {
    var o := OfClient(c);
    var k := FirstOf(net, o);
    FirstOfExists(net, o);
    if |Of(net.pending, o)| == MAX_PENDING {
      OfWithout(net.pending, k, o);
    }
  }

  /** A list without its head, if it is full. */
  function Recent(requests: seq<Request>): seq<Request> {
    if |requests| == MAX_PENDING then requests[1..] else requests
  }

  /** A request that expects a response goes to the end of its client's list, which loses its head when it is full;
      nobody else's list changes. */
  lemma ExpectedJoins(net: Net, c: nat, header: Header, o: Owner)
    requires Inv(net)
    ensures Of(Expected(net, c, header, true).pending, o)
         == if o != OfClient(c) then Of(net.pending, o)
            else Recent(Of(net.pending, o)) + [Request(net.nextRequest, o, header)]
  {
    var mine := OfClient(c);
    var k := FirstOf(net, mine);
    TrimsOldest(net, c);
    FirstOfExists(net, mine);
    if k < |net.pending| {
      HeadOfOwner(net, mine);
      OfWithout(net.pending, k, o);
    }
    OfAppended(Trimmed(net, c).pending, Request(net.nextRequest, mine, header), o);
  }

  lemma ExpectedKeeps(net: Net, c: nat, header: Header, room: bool)
    requires Inv(net) && c in net.clients
    ensures Inv(Expected(net, c, header, room))
  {
    TrimsOldest(net, c);
    FirstOfExists(net, OfClient(c));
    if |Of(net.pending, OfClient(c))| == MAX_PENDING {
      FreedKeeps(net, FirstOf(net, OfClient(c)));
    }
    if room {
      AddedKeeps(Trimmed(net, c), c, header);
    }
  }

  // ----- responses

  /** A client once a response was offered to its writer; only an open, connected client gets that far. */
  function Offered(client: Client, response: Response, w: Write): Client {
    if !client.open || client.disconnected then client
    else match w
      case Written => client.(written := client.written + [response])
      case Refused(d) => client.(disconnected := d)
  }

  function Delivered(net: Net, c: nat, response: Response, w: Write): Net {
    net.(client := net.client[c := match w
                                   case Written => At(net, c).(written := At(net, c).written + [response])
                                   case Refused(d) => At(net, c).(disconnected := d)])
  }

  /** The response reaches the client, unless it is disconnected, and the request at position `k` is done with. */
  function Reached(net: Net, c: nat, k: nat, response: Response, w: Write): Net {
    Release(if At(net, c).disconnected then net else Delivered(net, c, response, w), k)
  }

  /** A response for client `c`: `k` is the position of the request it answers, if that is known already. `force` sends
      it without a request, `ignore` disregards that the client is not authenticated. */
  function ToClient(net: Net, c: nat, k: nat, response: Response, force: bool, ignore: bool,
                    matching: Matching, w: Write): Net
  {
    if !ignore && !At(net, c).open then Release(net, k)
    else
      var target := if force || k < |net.pending| then k else OwnAnswered(net, c, matching, response);
      if !force && target >= |net.pending| then net
      else Reached(net, c, target, response, w)
  }

  function ToZombie(net: Net, z: nat, k: nat): Net
    requires k < |net.pending|
  {
    var net' := Freed(net, k);
    if Of(net'.pending, OfZombie(z)) == [] then net'.(finished := net'.finished + {z}) else net'
  }

  /** Forces a response on every client from position `i` on. */
  function Broadcast(net: Net, i: nat, response: Response, matching: Matching, writes: nat -> Write): Net
    decreases |net.clients| - i
  {
    if i >= |net.clients| then net
    else
      var c := net.clients[i];
      Broadcast(ToClient(net, c, |net.pending|, response, true, false, matching, writes(c)), i + 1,
                response, matching, writes)
  }

  /** Frees the requests for a UID from position `i` on. */
  function DropFrom(net: Net, i: nat, uid: nat): Net
    decreases |net.pending| - i
  {
    if i >= |net.pending| then net
    else if net.pending[i].header.uid == uid then DropFrom(Freed(net, i), i, uid)
    else DropFrom(net, i + 1, uid)
  }

  function Dispatched(net: Net, response: Response, matching: Matching, writes: nat -> Write): Net {
    if response.sequence == 0 then
      var net' := if response.announces then DropFrom(net, 0, response.uid) else net;
      Broadcast(net', 0, response, matching, writes)
    else if |net.clients| + |net.zombies| > 0 then
      var k := Answered(net, matching, response);
      if k == |net.pending| then Broadcast(net, 0, response, matching, writes)
      else match net.pending[k].owner
        case OfClient(c) => ToClient(net, c, k, response, false, false, matching, writes(c))
        case OfZombie(z) => ToZombie(net, z, k)
    else net
  }

  // ----- responses keep what holds

  lemma DeliveredKeeps(net: Net, c: nat, response: Response, w: Write)
    requires Inv(net)
    ensures Inv(Delivered(net, c, response, w))
  {
  }

  lemma ReleaseKeeps(net: Net, k: nat)
    requires Inv(net)
    ensures Inv(Release(net, k))
  {
    if k < |net.pending| {
      FreedKeeps(net, k);
    }
  }

  lemma ReachedKeeps(net: Net, c: nat, k: nat, response: Response, w: Write)
    requires Inv(net)
    ensures Inv(Reached(net, c, k, response, w))
  {
    DeliveredKeeps(net, c, response, w);
    ReleaseKeeps(if At(net, c).disconnected then net else Delivered(net, c, response, w), k);
  }

  lemma ToClientIs(net: Net, c: nat, k: nat, response: Response, force: bool, ignore: bool,
                   matching: Matching, w: Write, target: nat, keeps: Net -> bool)
    requires target == if force || k < |net.pending| then k else OwnAnswered(net, c, matching, response)
    requires keeps(net) && keeps(Release(net, k)) && keeps(Reached(net, c, target, response, w))
    ensures keeps(ToClient(net, c, k, response, force, ignore, matching, w))
  {
  }

  lemma ToClientKeeps(net: Net, c: nat, k: nat, response: Response, force: bool, ignore: bool,
                      matching: Matching, w: Write)
    requires Inv(net)
    ensures Inv(ToClient(net, c, k, response, force, ignore, matching, w))
  {
    var target := if force || k < |net.pending| then k else OwnAnswered(net, c, matching, response);
    ReleaseKeeps(net, k);
    ReachedKeeps(net, c, target, response, w);
    ToClientIs(net, c, k, response, force, ignore, matching, w, target, n => Inv(n));
  }

  lemma ToZombieKeeps(net: Net, z: nat, k: nat)
    requires Inv(net) && k < |net.pending| && z in net.zombies
    ensures Inv(ToZombie(net, z, k))
  {
    FreedKeeps(net, k);
  }

  lemma {:induction false} DropFromKeeps(net: Net, i: nat, uid: nat)
    requires Inv(net)
    ensures Inv(DropFrom(net, i, uid))
    decreases |net.pending| - i
  {
    if i < |net.pending| {
      if net.pending[i].header.uid == uid {
        FreedKeeps(net, i);
        DropFromKeeps(Freed(net, i), i, uid);
      } else {
        DropFromKeeps(net, i + 1, uid);
      }
    }
  }

  lemma ForcedIsOffered(net: Net, c: nat, response: Response, matching: Matching, w: Write)
    ensures var net' := ToClient(net, c, |net.pending|, response, true, false, matching, w);
            && net' == net.(client := net'.client) && net.client.Keys <= net'.client.Keys
            && At(net', c) == Offered(At(net, c), response, w)
            && forall d :: d != c ==> At(net', d) == At(net, d)
  {
  }

  /** Broadcasting touches no request. */
  lemma {:induction false} BroadcastKeeps(net: Net, i: nat, response: Response, matching: Matching,
                                          writes: nat -> Write)
    ensures var net' := Broadcast(net, i, response, matching, writes);
            net' == net.(client := net'.client) && net.client.Keys <= net'.client.Keys
    decreases |net.clients| - i
  {
    if i < |net.clients| {
      var c := net.clients[i];
      ForcedIsOffered(net, c, response, matching, writes(c));
      BroadcastKeeps(ToClient(net, c, |net.pending|, response, true, false, matching, writes(c)), i + 1,
                     response, matching, writes);
    }
  }

  /** Every client in the array is offered the response exactly once. */
  lemma {:induction false} BroadcastOffersOnce(net: Net, i: nat, response: Response, matching: Matching,
                                               writes: nat -> Write, c: nat)
    requires NoRepeats(net.clients) && i <= |net.clients|
    ensures At(Broadcast(net, i, response, matching, writes), c)
         == if c in net.clients[i..] then Offered(At(net, c), response, writes(c)) else At(net, c)
    decreases |net.clients| - i
  {
    if i < |net.clients| {
      var d := net.clients[i];
      ForcedIsOffered(net, d, response, matching, writes(d));
      BroadcastOffersOnce(ToClient(net, d, |net.pending|, response, true, false, matching, writes(d)), i + 1,
                          response, matching, writes, c);
      assert net.clients[i..] == [d] + net.clients[i + 1..];
    }
  }

  lemma DispatchedIs(net: Net, response: Response, matching: Matching, writes: nat -> Write, keeps: Net -> bool)
    requires keeps(net) && keeps(Broadcast(net, 0, response, matching, writes))
    requires keeps(Broadcast(DropFrom(net, 0, response.uid), 0, response, matching, writes))
    requires var k := Answered(net, matching, response);
             k < |net.pending| ==>
               match net.pending[k].owner
               case OfClient(c) => keeps(ToClient(net, c, k, response, false, false, matching, writes(c)))
               case OfZombie(z) => keeps(ToZombie(net, z, k))
    ensures keeps(Dispatched(net, response, matching, writes))
  {
  }

  lemma DispatchedKeeps(net: Net, response: Response, matching: Matching, writes: nat -> Write)
    requires Inv(net)
    ensures Inv(Dispatched(net, response, matching, writes))
  {
    var k := Answered(net, matching, response);
    DropFromKeeps(net, 0, response.uid);
    BroadcastKeepsInv(DropFrom(net, 0, response.uid), response, matching, writes);
    BroadcastKeepsInv(net, response, matching, writes);
    if k < |net.pending| {
      match net.pending[k].owner
      case OfClient(c) => ToClientKeeps(net, c, k, response, false, false, matching, writes(c));
      case OfZombie(z) =>
        assert Live(net, net.pending[k].owner);
        ToZombieKeeps(net, z, k);
    }
    DispatchedIs(net, response, matching, writes, n => Inv(n));
  }

  lemma BroadcastKeepsInv(net: Net, response: Response, matching: Matching, writes: nat -> Write)
    requires Inv(net)
    ensures Inv(Broadcast(net, 0, response, matching, writes))
  {
    BroadcastKeeps(net, 0, response, matching, writes);
  }

  // ----- the daemon's own responses

  /** The client has no request pending that a response answers. */
  ghost predicate Unasked(net: Net, c: nat, matching: Matching, response: Response) {
    forall r :: r in net.pending && r.owner == OfClient(c) ==> !matching(response, r.header)
  }

  lemma TrimmedUnasked(net: Net, c: nat, matching: Matching, response: Response)
    requires Inv(net) && Unasked(net, c, matching, response)
    ensures Unasked(Trimmed(net, c), c, matching, response)
  {
    TrimsOldest(net, c);
  }

  lemma OwnAnsweredAtEnd(net: Net, c: nat, header: Header, matching: Matching, response: Response)
    requires Unasked(net, c, matching, response) && matching(response, header)
    ensures OwnAnswered(net, c, matching, response) == |net.pending|
    ensures OwnAnswered(Added(net, c, header), c, matching, response) == |net.pending|
  {
    var added := Added(net, c, header);
    assert forall i :: 0 <= i < |net.pending| ==> added.pending[i] == net.pending[i] && net.pending[i] in net.pending;
    assert added.pending[|net.pending|] == Request(net.nextRequest, OfClient(c), header);
  }

  /** The daemon answers a request of a connected client itself: the response reaches the writer if and only if the
      request was remembered, and then the request is pending no longer. */
  lemma OwnResponseIfRemembered(net: Net, c: nat, header: Header, room: bool, response: Response, ignore: bool,
                                matching: Matching, w: Write)
    requires Inv(net) && Unasked(net, c, matching, response) && matching(response, header)
    requires !At(net, c).disconnected && (ignore || At(net, c).open)
    ensures var asked := Expected(net, c, header, room);
            var net' := ToClient(asked, c, |asked.pending|, response, false, ignore, matching, w);
            && net'.pending == Trimmed(net, c).pending
            && At(net', c) == if room then At(Delivered(net, c, response, w), c) else At(net, c)
  {
    var t := Trimmed(net, c);
    TrimsOldest(net, c);
    TrimmedUnasked(net, c, matching, response);
    OwnAnsweredAtEnd(t, c, header, matching, response);
    if room {
      assert Without(Added(t, c, header).pending, |t.pending|) == t.pending;
    }
  }

  // ----- where a response goes

  lemma NobodyNothing(net: Net)
    requires OwnersLive(net) && net.clients == [] && net.zombies == []
    ensures net.pending == []
  {
    assert net.pending != [] ==> Live(net, net.pending[0].owner);
  }

  lemma SomebodyAsked(net: Net, k: nat)
    requires OwnersLive(net) && k < |net.pending|
    ensures |net.clients| + |net.zombies| > 0
  {
    assert Live(net, net.pending[k].owner);
  }

  lemma ToClientOffers(net: Net, c: nat, k: nat, response: Response, matching: Matching, w: Write, d: nat)
    requires k < |net.pending|
    ensures var net' := ToClient(net, c, k, response, false, false, matching, w);
            && net'.pending == Without(net.pending, k) && net'.freed == net.freed + [net.pending[k].id]
            && At(net', d) == if c == d then Offered(At(net, c), response, w) else At(net, d)
  {
  }

  /** A response with a sequence number consumes the oldest request it answers and nothing else, and only the client
      of that request is offered it. */
  lemma RoutesToOldest(net: Net, response: Response, matching: Matching, writes: nat -> Write, c: nat)
    requires Inv(net) && response.sequence != 0 && Answered(net, matching, response) < |net.pending|
    ensures var net', k := Dispatched(net, response, matching, writes), Answered(net, matching, response);
            && net'.pending == Without(net.pending, k) && net'.freed == net.freed + [net.pending[k].id]
            && net'.clients == net.clients && net'.zombies == net.zombies
            && At(net', c) == (if net.pending[k].owner == OfClient(c)
                               then Offered(At(net, c), response, writes(c)) else At(net, c))
            && net'.finished == if net.pending[k].owner.OfZombie? && Of(net'.pending, net.pending[k].owner) == []
                                then net.finished + {net.pending[k].owner.zombie} else net.finished
  {
    var k := Answered(net, matching, response);
    SomebodyAsked(net, k);
    if net.pending[k].owner.OfClient? {
      var d := net.pending[k].owner.client;
      ToClientOffers(net, d, k, response, matching, writes(d), c);
    }
  }

  /** A response that answers no request is offered to every client once and leaves the requests alone. When there is
      nobody left to ask there is no request either, so none is passed over. */
  lemma BroadcastsUnmatched(net: Net, response: Response, matching: Matching, writes: nat -> Write, c: nat)
    requires Inv(net) && response.sequence != 0 && Answered(net, matching, response) == |net.pending|
    ensures var net' := Dispatched(net, response, matching, writes);
            && net' == net.(client := net'.client)
            && At(net', c) == if c in net.clients then Offered(At(net, c), response, writes(c)) else At(net, c)
  {
    BroadcastKeeps(net, 0, response, matching, writes);
    BroadcastOffersOnce(net, 0, response, matching, writes, c);
    assert net.clients[0..] == net.clients;
  }

  // ----- dropping the requests for a UID

  /** The requests whose UID is not among `uids`, in queue order. */
  function Kept(pending: seq<Request>, uids: set<nat>): seq<Request> {
    if pending == [] then []
    else
      var last := pending[|pending| - 1];
      Kept(pending[..|pending| - 1], uids) + if last.header.uid in uids then [] else [last]
  }

  lemma KeptLast(pending: seq<Request>, r: Request, uids: set<nat>)
    ensures Kept(pending + [r], uids) == Kept(pending, uids) + if r.header.uid in uids then [] else [r]
  {
    assert (pending + [r])[..|pending|] == pending;
  }

  lemma KeptParts(a: seq<Request>, b: seq<Request>, c: seq<Request>)
    ensures (a + b) + c == a + (b + c)
  {
  }

  lemma {:induction false} KeptConcat(p: seq<Request>, q: seq<Request>, uids: set<nat>)
    ensures Kept(p + q, uids) == Kept(p, uids) + Kept(q, uids)
    decreases |q|
  {
    if q == [] {
      assert p + q == p;
    } else {
      var n := |q| - 1;
      KeptConcat(p, q[..n], uids);
      KeptLast(p + q[..n], q[n], uids);
      KeptLast(q[..n], q[n], uids);
      KeptSplit(p, q);
      KeptParts(Kept(p, uids), Kept(q[..n], uids), if q[n].header.uid in uids then [] else [q[n]]);
    }
  }

  lemma KeptSplit(p: seq<Request>, q: seq<Request>)
    requires q != []
    ensures var n := |q| - 1; p + q == (p + q[..n]) + [q[n]] && q == q[..n] + [q[n]]
  {
  }

  lemma {:induction false} KeptTwice(pending: seq<Request>, a: set<nat>, b: set<nat>)
    ensures Kept(Kept(pending, a), b) == Kept(pending, a + b)
  {
    if pending != [] {
      var n := |pending| - 1;
      KeptTwice(pending[..n], a, b);
      var last := pending[n];
      KeptConcat(Kept(pending[..n], a), if last.header.uid in a then [] else [last], b);
      assert [last][..0] == [];
    }
  }

  lemma KeptStep(pending: seq<Request>, i: nat, uid: nat)
    requires i < |pending|
    ensures pending[..i] + Kept(pending[i..], {uid})
         == if pending[i].header.uid == uid then Without(pending, i)[..i] + Kept(Without(pending, i)[i..], {uid})
            else pending[..i + 1] + Kept(pending[i + 1..], {uid})
  {
    var r, rest := pending[i], pending[i + 1..];
    assert pending[i..] == [r] + rest;
    KeptConcat([r], rest, {uid});
    assert [r][..0] == [];
    assert Kept([r], {uid}) == if r.header.uid == uid then [] else [r];
    assert Without(pending, i)[..i] == pending[..i] && Without(pending, i)[i..] == rest;
    assert pending[..i + 1] == pending[..i] + [r];
  }

  /** The walk frees exactly the requests for the UID: the others keep their order and their owners. */
  lemma {:induction false} DropsExactly(net: Net, i: nat, uid: nat)
    requires i <= |net.pending|
    ensures var net' := DropFrom(net, i, uid);
            && net' == net.(pending := net'.pending, freed := net'.freed)
            && net'.pending == net.pending[..i] + Kept(net.pending[i..], {uid})
    decreases |net.pending| - i
  {
    if i < |net.pending| {
      KeptStep(net.pending, i, uid);
      if net.pending[i].header.uid == uid {
        DropsExactly(Freed(net, i), i, uid);
      } else {
        DropsExactly(net, i + 1, uid);
      }
    }
  }

  // ----- callbacks

  /** What an offer comes to: an open, connected client is written the response, or is disconnected if the writer says
      so; nothing else changes. */
  lemma OfferedExactly(client: Client, response: Response, w: Write)
    ensures Offered(client, response, w).open == client.open
    ensures Offered(client, response, w).written
         == if client.open && !client.disconnected && w == Written then client.written + [response] else client.written
    ensures Offered(client, response, w).disconnected <==>
              client.disconnected || (client.open && w.Refused? && w.disconnects)
  {
  }

  /** A response without sequence number is a callback. It is offered to every client once, whatever it is about, and it
      drops requests if and only if it announces that a device comes or goes, and then those for that device. */
  lemma CallbackReachesAll(net: Net, response: Response, matching: Matching, writes: nat -> Write, c: nat)
    requires Inv(net) && response.sequence == 0
    ensures var net' := Dispatched(net, response, matching, writes);
            && At(net', c) == (if c in net.clients then Offered(At(net, c), response, writes(c)) else At(net, c))
            && net'.pending == (if response.announces then Kept(net.pending, {response.uid}) else net.pending)
            && net'.clients == net.clients && net'.zombies == net.zombies && net'.finished == net.finished
  {
    var net0 := if response.announces then DropFrom(net, 0, response.uid) else net;
    DropsExactly(net, 0, response.uid);
    assert net.pending[..0] + Kept(net.pending[0..], {response.uid}) == Kept(net.pending, {response.uid});
    BroadcastKeeps(net0, 0, response, matching, writes);
    BroadcastOffersOnce(net0, 0, response, matching, writes, c);
    assert net0.clients[0..] == net.clients;
  }

  // ----- a stack goes away

  /** The callback that announces the end of a device: sequence number 0, type disconnected. */
  function Farewell(uid: nat): Response { Response(uid, 0, true, 0) }

  /** Announces the end of the first `n` devices in a table, in order; `writes` gives the outcomes for each of them. */
  function Announced(net: Net, uids: seq<nat>, n: nat, matching: Matching, writes: nat -> nat -> Write): Net
    requires n <= |uids|
  {
    if n == 0 then net
    else Dispatched(Announced(net, uids, n - 1, matching, writes), Farewell(uids[n - 1]), matching, writes(n - 1))
  }

  function Named(uids: seq<nat>): set<nat> { set u | u in uids }

  lemma FarewellDrops(net: Net, uid: nat, matching: Matching, writes: nat -> Write)
    ensures var net' := Dispatched(net, Farewell(uid), matching, writes);
            net'.pending == Kept(net.pending, {uid}) && net'.clients == net.clients && net'.zombies == net.zombies
  {
    DropsExactly(net, 0, uid);
    assert net.pending[..0] + Kept(net.pending[0..], {uid}) == Kept(net.pending, {uid});
    BroadcastKeeps(DropFrom(net, 0, uid), 0, Farewell(uid), matching, writes);
  }

  lemma {:induction false} AnnouncedKeeps(net: Net, uids: seq<nat>, n: nat, matching: Matching,
                                          writes: nat -> nat -> Write)
    requires Inv(net) && n <= |uids|
    ensures Inv(Announced(net, uids, n, matching, writes))
  {
    if n > 0 {
      AnnouncedKeeps(net, uids, n - 1, matching, writes);
      DispatchedKeeps(Announced(net, uids, n - 1, matching, writes), Farewell(uids[n - 1]), matching, writes(n - 1));
    }
  }

  /** Afterwards no request for a device of the stack is pending, and the other requests are as they were. */
  lemma {:induction false} AnnouncedDropsAll(net: Net, uids: seq<nat>, n: nat, matching: Matching,
                                             writes: nat -> nat -> Write)
    requires n <= |uids|
    ensures var net' := Announced(net, uids, n, matching, writes);
            && net'.pending == Kept(net.pending, Named(uids[..n]))
            && net'.clients == net.clients && net'.zombies == net.zombies
  {
    if n == 0 {
      KeptNothing(net.pending);
      assert Named(uids[..0]) == {};
    } else {
      AnnouncedDropsAll(net, uids, n - 1, matching, writes);
      FarewellDrops(Announced(net, uids, n - 1, matching, writes), uids[n - 1], matching, writes(n - 1));
      KeptMore(net.pending, uids, n);
    }
  }

  lemma KeptMore(pending: seq<Request>, uids: seq<nat>, n: nat)
    requires 0 < n <= |uids|
    ensures Kept(Kept(pending, Named(uids[..n - 1])), {uids[n - 1]}) == Kept(pending, Named(uids[..n]))
  {
    KeptTwice(pending, Named(uids[..n - 1]), {uids[n - 1]});
    assert Named(uids[..n]) == Named(uids[..n - 1]) + {uids[n - 1]};
  }

  lemma {:induction false} KeptNothing(pending: seq<Request>)
    ensures Kept(pending, {}) == pending
  {
    if pending != [] {
      KeptNothing(pending[..|pending| - 1]);
    }
  }

  lemma {:induction false} KeptAreOthers(pending: seq<Request>, uids: set<nat>, r: Request)
    ensures r in Kept(pending, uids) <==> r in pending && r.header.uid !in uids
  {
    if pending != [] {
      KeptAreOthers(pending[..|pending| - 1], uids, r);
      assert pending == pending[..|pending| - 1] + [pending[|pending| - 1]];
    }
  }
}
