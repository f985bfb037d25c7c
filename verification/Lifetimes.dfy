/** Clients and zombies come and go, and every run of the network. */
module Lifetimes {
  import opened Counting
  import opened Pending
  import opened Routing

  // ----- the end of a client

  /** A client that still has requests leaves them to a new zombie; when that cannot be created they are freed. */
  function Destroyed(net: Net, c: nat, zombie: bool): (net': Net)
    ensures net'.clients == net.clients && net'.client == net.client && net'.finished == net.finished
  {
    if Of(net.pending, OfClient(c)) == [] then net
    else if zombie then Zombified(net, c)
    else FreeAll(net, OfClient(c))
  }

  lemma DestroyedKeeps(net: Net, c: nat, zombie: bool)
    requires Inv(net)
    ensures Inv(Destroyed(net, c, zombie)) && Of(Destroyed(net, c, zombie).pending, OfClient(c)) == []
  {
    ZombifiedKeeps(net, c);
    FreeAllKeeps(net, OfClient(c));
  }

  /** A zombie is created if and only if there are requests left and there is memory for it; it takes them all over, in
      order. */
  lemma DestroyedExactly(net: Net, c: nat, zombie: bool)
    requires Inv(net)
    ensures var net', own, z := Destroyed(net, c, zombie), Of(net.pending, OfClient(c)), net.nextZombie;
            && net'.zombies == (if own != [] && zombie then net.zombies + [z] else net.zombies)
            && Of(net'.pending, OfZombie(z)) == (if zombie then Relabel(own, OfClient(c), OfZombie(z)) else [])
  {
    NoSuchOwner(net, OfZombie(net.nextZombie));
    OfRelabel(net.pending, OfClient(c), OfZombie(net.nextZombie), OfZombie(net.nextZombie));
    FreeAllLeavesNone(net, OfClient(c), OfZombie(net.nextZombie));
  }

  // ----- cleaning up, from the last item to the first

  /** The client at position `i` leaves if it is disconnected. */
  function ClientGone(net: Net, i: nat, zombie: nat -> bool): (net': Net)
    requires i < |net.clients|
    ensures |net'.clients| >= i
  {
    var c := net.clients[i];
    if At(net, c).disconnected then ClientRemoved(Destroyed(net, c, zombie(c)), i) else net
  }

  function CleanClients(net: Net, i: nat, zombie: nat -> bool): Net
    requires i <= |net.clients|
    decreases i
  {
    if i == 0 then net else CleanClients(ClientGone(net, i - 1, zombie), i - 1, zombie)
  }

  /** The zombie at position `i` leaves if it is finished. */
  function ZombieGone(net: Net, i: nat): (net': Net)
    requires i < |net.zombies|
    ensures |net'.zombies| >= i
  {
    var z := net.zombies[i];
    if z in net.finished then ZombieRemoved(FreeAll(net, OfZombie(z)), i) else net
  }

  function CleanZombies(net: Net, i: nat): Net
    requires i <= |net.zombies|
    decreases i
  {
    if i == 0 then net else CleanZombies(ZombieGone(net, i - 1), i - 1)
  }

  function Cleaned(net: Net, zombie: nat -> bool): Net {
    var net' := CleanClients(net, |net.clients|, zombie);
    CleanZombies(net', |net'.zombies|)
  }

  lemma ClientGoneKeeps(net: Net, i: nat, zombie: nat -> bool)
    requires Inv(net) && i < |net.clients|
    ensures Inv(ClientGone(net, i, zombie))
  {
    var c := net.clients[i];
    DestroyedKeeps(net, c, zombie(c));
    ClientRemovedKeeps(Destroyed(net, c, zombie(c)), i);
  }

  lemma ZombieGoneKeeps(net: Net, i: nat)
    requires Inv(net) && i < |net.zombies|
    ensures Inv(ZombieGone(net, i))
  {
    FreeAllKeeps(net, OfZombie(net.zombies[i]));
    ZombieRemovedKeeps(FreeAll(net, OfZombie(net.zombies[i])), i);
  }

  lemma {:induction false} CleanClientsKeeps(net: Net, i: nat, zombie: nat -> bool)
    requires Inv(net) && i <= |net.clients|
    ensures Inv(CleanClients(net, i, zombie))
    decreases i
  {
    if i > 0 {
      ClientGoneKeeps(net, i - 1, zombie);
      CleanClientsKeeps(ClientGone(net, i - 1, zombie), i - 1, zombie);
    }
  }

  lemma {:induction false} CleanZombiesKeeps(net: Net, i: nat)
    requires Inv(net) && i <= |net.zombies|
    ensures Inv(CleanZombies(net, i))
    decreases i
  {
    if i > 0 {
      ZombieGoneKeeps(net, i - 1);
      CleanZombiesKeeps(ZombieGone(net, i - 1), i - 1);
    }
  }

  // ----- what cleaning up frees

  lemma IdsHead(s: seq<Request>)
    requires s != []
    ensures Ids(s) == [s[0].id] + Ids(s[1..])
  {
  }

  lemma Associative(a: seq<nat>, b: seq<nat>, c: seq<nat>)
    ensures (a + b) + c == a + (b + c)
  {
  }

  /** An owner's requests are freed oldest first, and nobody else's. */
  lemma {:induction false} FreeAllFrees(net: Net, o: Owner)
    ensures FreeAll(net, o).freed == net.freed + Ids(Of(net.pending, o))
    decreases |net.pending|
  {
    var k, own := FirstOf(net, o), Of(net.pending, o);
    FirstOfExists(net, o);
    if k < |net.pending| {
      HeadOfOwner(net, o);
      FreeAllFrees(Freed(net, k), o);
      IdsHead(own);
      Associative(net.freed, [own[0].id], Ids(own[1..]));
    }
  }

  lemma {:induction false} FreeAllSpares(net: Net, o: Owner, p: Owner)
    requires o != p
    ensures Of(FreeAll(net, o).pending, p) == Of(net.pending, p)
    decreases |net.pending|
  {
    var k := FirstOf(net, o);
    if k < |net.pending| {
      OfWithout(net.pending, k, p);
      FreeAllSpares(Freed(net, k), o, p);
    }
  }

  /** A client's requests are freed exactly when no zombie could be created for them; other owners keep theirs. */
  lemma DestroyedFrees(net: Net, c: nat, zombie: bool, p: Owner)
    requires Inv(net) && p != OfClient(c) && p != OfZombie(net.nextZombie)
    ensures var net' := Destroyed(net, c, zombie);
            && net'.freed == net.freed + (if zombie then [] else Ids(Of(net.pending, OfClient(c))))
            && Of(net'.pending, p) == Of(net.pending, p)
  {
    var o, to := OfClient(c), OfZombie(net.nextZombie);
    FreeAllFrees(net, o);
    FreeAllSpares(net, o, p);
    NoSuchOwner(net, to);
    OfRelabel(net.pending, o, to, p);
  }

  /** The requests that go with the client at position `i`. */
  function LostWithClient(net: Net, i: nat, zombie: nat -> bool): seq<nat>
    requires i < |net.clients|
  {
    var c := net.clients[i];
    if At(net, c).disconnected && !zombie(c) then Ids(Of(net.pending, OfClient(c))) else []
  }

  /** Those that go with the first `i` clients, last client first. */
  function LostWithClients(net: Net, i: nat, zombie: nat -> bool): seq<nat>
    requires i <= |net.clients|
  {
    if i == 0 then [] else LostWithClient(net, i - 1, zombie) + LostWithClients(net, i - 1, zombie)
  }

  lemma {:induction false} LostWithClientsFrame(net: Net, net': Net, i: nat, zombie: nat -> bool)
    requires i <= |net.clients| && i <= |net'.clients|
    requires forall j :: 0 <= j < i ==> LostWithClient(net', j, zombie) == LostWithClient(net, j, zombie)
    ensures LostWithClients(net', i, zombie) == LostWithClients(net, i, zombie)
  {
    if i > 0 {
      LostWithClientsFrame(net, net', i - 1, zombie);
    }
  }

  lemma ClientGoneFrees(net: Net, i: nat, zombie: nat -> bool)
    requires Inv(net) && i < |net.clients|
    ensures ClientGone(net, i, zombie).freed == net.freed + LostWithClient(net, i, zombie)
  {
    var c := net.clients[i];
    DestroyedFrees(net, c, zombie(c), OfClient(c + 1));
  }

  lemma ClientGoneSpares(net: Net, i: nat, zombie: nat -> bool, j: nat)
    requires Inv(net) && j < i < |net.clients|
    ensures LostWithClient(ClientGone(net, i, zombie), j, zombie) == LostWithClient(net, j, zombie)
  {
    var c := net.clients[i];
    DestroyedFrees(net, c, zombie(c), OfClient(net.clients[j]));
  }

  lemma ClientGoneSteps(net: Net, i: nat, zombie: nat -> bool)
    requires Inv(net) && i < |net.clients|
    ensures Inv(ClientGone(net, i, zombie))
    ensures LostWithClients(ClientGone(net, i, zombie), i, zombie) == LostWithClients(net, i, zombie)
    ensures ClientGone(net, i, zombie).freed + LostWithClients(net, i, zombie)
         == net.freed + LostWithClients(net, i + 1, zombie)
  {
    var net1 := ClientGone(net, i, zombie);
    forall j | 0 <= j < i
      ensures LostWithClient(net1, j, zombie) == LostWithClient(net, j, zombie)
    {
      ClientGoneSpares(net, i, zombie, j);
    }
    LostWithClientsFrame(net, net1, i, zombie);
    ClientGoneFrees(net, i, zombie);
    Associative(net.freed, LostWithClient(net, i, zombie), LostWithClients(net, i, zombie));
    ClientGoneKeeps(net, i, zombie);
  }

  /** What each step of the walk carries over, the whole walk does. */
  lemma {:induction false} CleanClientsCarries<T>(net: Net, i: nat, zombie: nat -> bool, good: Net -> bool,
                                                  owed: (Net, nat) -> T)
    requires good(net) && i <= |net.clients|
    requires forall n: Net, j: nat {:trigger ClientGone(n, j, zombie)} :: good(n) && j < |n.clients| ==>
               good(ClientGone(n, j, zombie)) && owed(ClientGone(n, j, zombie), j) == owed(n, j + 1)
    ensures owed(CleanClients(net, i, zombie), 0) == owed(net, i)
    decreases i
  {
    if i > 0 {
      CleanClientsCarries(ClientGone(net, i - 1, zombie), i - 1, zombie, good, owed);
    }
  }

  function Owed(net: Net, i: nat, zombie: nat -> bool): seq<nat> {
    if i <= |net.clients| then net.freed + LostWithClients(net, i, zombie) else []
  }

  /** Of the requests of the clients that leave, exactly those without a zombie are freed. */
  lemma CleanClientsFrees(net: Net, zombie: nat -> bool)
    requires Inv(net)
    ensures CleanClients(net, |net.clients|, zombie).freed
         == net.freed + LostWithClients(net, |net.clients|, zombie)
  {
    forall n: Net, j: nat | Inv(n) && j < |n.clients|
      ensures Inv(ClientGone(n, j, zombie)) && Owed(ClientGone(n, j, zombie), j, zombie) == Owed(n, j + 1, zombie)
    {
      ClientGoneSteps(n, j, zombie);
    }
    CleanClientsCarries(net, |net.clients|, zombie, n => Inv(n), (n, j) => Owed(n, j, zombie));
  }

  /** The clients that are still connected, in order. */
  function Staying(client: map<nat, Client>, clients: seq<nat>): seq<nat> {
    if clients == [] then []
    else
      var n := |clients| - 1;
      var c := clients[n];
      Staying(client, clients[..n]) + if c in client && !client[c].disconnected then [c] else []
  }

  function StayingUpTo(net: Net, i: nat): seq<nat> {
    if i <= |net.clients| then Staying(net.client, net.clients[..i]) + net.clients[i..] else []
  }

  lemma ClientGoneStays(net: Net, i: nat, zombie: nat -> bool)
    requires Inv(net) && i < |net.clients|
    ensures StayingUpTo(ClientGone(net, i, zombie), i) == StayingUpTo(net, i + 1)
  {
    var clients, client := net.clients, net.client;
    assert clients[..i + 1][..i] == clients[..i];
    assert clients[i] in clients;
    if At(net, clients[i]).disconnected {
      var cut := Cut(clients, i);
      assert cut[..i] == clients[..i] && cut[i..] == clients[i + 1..];
    } else {
      assert Staying(client, clients[..i]) + [clients[i]] + clients[i + 1..]
          == Staying(client, clients[..i]) + clients[i..];
    }
  }

  /** Exactly the disconnected clients leave. */
  lemma CleanClientsStay(net: Net, zombie: nat -> bool)
    requires Inv(net)
    ensures CleanClients(net, |net.clients|, zombie).clients == Staying(net.client, net.clients)
  {
    forall n: Net, j: nat | Inv(n) && j < |n.clients|
      ensures Inv(ClientGone(n, j, zombie)) && StayingUpTo(ClientGone(n, j, zombie), j) == StayingUpTo(n, j + 1)
    {
      ClientGoneKeeps(n, j, zombie);
      ClientGoneStays(n, j, zombie);
    }
    CleanClientsCarries(net, |net.clients|, zombie, n => Inv(n), (n, j) => StayingUpTo(n, j));
    StayingEnds(net);
    StayingEnds(CleanClients(net, |net.clients|, zombie));
  }

  lemma StayingEnds(net: Net)
    ensures StayingUpTo(net, 0) == net.clients && StayingUpTo(net, |net.clients|) == Staying(net.client, net.clients)
  {
    var all := net.clients;
    assert all[..0] == [] && all[0..] == all && all[..|all|] == all && all[|all|..] == [];
  }

  // ----- the same for zombies

  /** The requests that go with the zombie at position `i`. */
  function LostWithZombie(net: Net, i: nat): seq<nat>
    requires i < |net.zombies|
  {
    if net.zombies[i] in net.finished then Ids(Of(net.pending, OfZombie(net.zombies[i]))) else []
  }

  function LostWithZombies(net: Net, i: nat): seq<nat>
    requires i <= |net.zombies|
  {
    if i == 0 then [] else LostWithZombie(net, i - 1) + LostWithZombies(net, i - 1)
  }

  lemma {:induction false} LostWithZombiesFrame(net: Net, net': Net, i: nat)
    requires i <= |net.zombies| && i <= |net'.zombies|
    requires forall j :: 0 <= j < i ==> LostWithZombie(net', j) == LostWithZombie(net, j)
    ensures LostWithZombies(net', i) == LostWithZombies(net, i)
  {
    if i > 0 {
      LostWithZombiesFrame(net, net', i - 1);
    }
  }

  lemma ZombieGoneFrees(net: Net, i: nat)
    requires i < |net.zombies|
    ensures ZombieGone(net, i).freed == net.freed + LostWithZombie(net, i)
  {
    FreeAllFrees(net, OfZombie(net.zombies[i]));
  }

  lemma ZombieGoneSpares(net: Net, i: nat, j: nat)
    requires Inv(net) && j < i < |net.zombies|
    ensures LostWithZombie(ZombieGone(net, i), j) == LostWithZombie(net, j)
  {
    FreeAllSpares(net, OfZombie(net.zombies[i]), OfZombie(net.zombies[j]));
  }

  lemma ZombieGoneSteps(net: Net, i: nat)
    requires Inv(net) && i < |net.zombies|
    ensures Inv(ZombieGone(net, i))
    ensures LostWithZombies(ZombieGone(net, i), i) == LostWithZombies(net, i)
    ensures ZombieGone(net, i).freed + LostWithZombies(net, i) == net.freed + LostWithZombies(net, i + 1)
  {
    var net1 := ZombieGone(net, i);
    forall j | 0 <= j < i
      ensures LostWithZombie(net1, j) == LostWithZombie(net, j)
    {
      ZombieGoneSpares(net, i, j);
    }
    LostWithZombiesFrame(net, net1, i);
    ZombieGoneFrees(net, i);
    Associative(net.freed, LostWithZombie(net, i), LostWithZombies(net, i));
    ZombieGoneKeeps(net, i);
  }

  lemma {:induction false} CleanZombiesCarries<T>(net: Net, i: nat, good: Net -> bool, owed: (Net, nat) -> T)
    requires good(net) && i <= |net.zombies|
    requires forall n: Net, j: nat {:trigger ZombieGone(n, j)} :: good(n) && j < |n.zombies| ==>
               good(ZombieGone(n, j)) && owed(ZombieGone(n, j), j) == owed(n, j + 1)
    ensures owed(CleanZombies(net, i), 0) == owed(net, i)
    decreases i
  {
    if i > 0 {
      CleanZombiesCarries(ZombieGone(net, i - 1), i - 1, good, owed);
    }
  }

  function OwedToZombies(net: Net, i: nat): seq<nat> {
    if i <= |net.zombies| then net.freed + LostWithZombies(net, i) else []
  }

  /** Exactly the requests of the finished zombies are freed. */
  lemma CleanZombiesFrees(net: Net)
    requires Inv(net)
    ensures CleanZombies(net, |net.zombies|).freed == net.freed + LostWithZombies(net, |net.zombies|)
  {
    forall n: Net, j: nat | Inv(n) && j < |n.zombies|
      ensures Inv(ZombieGone(n, j)) && OwedToZombies(ZombieGone(n, j), j) == OwedToZombies(n, j + 1)
    {
      ZombieGoneSteps(n, j);
    }
    CleanZombiesCarries(net, |net.zombies|, n => Inv(n), (n, j) => OwedToZombies(n, j));
  }

  /** The zombies that are not finished, in order. */
  function Unfinished(finished: set<nat>, zombies: seq<nat>): seq<nat> {
    if zombies == [] then []
    else
      var n := |zombies| - 1;
      Unfinished(finished, zombies[..n]) + if zombies[n] in finished then [] else [zombies[n]]
  }

  function UnfinishedUpTo(net: Net, i: nat): seq<nat> {
    if i <= |net.zombies| then Unfinished(net.finished, net.zombies[..i]) + net.zombies[i..] else []
  }

  lemma ZombieGoneStays(net: Net, i: nat)
    requires i < |net.zombies|
    ensures UnfinishedUpTo(ZombieGone(net, i), i) == UnfinishedUpTo(net, i + 1)
  {
    var zombies, finished := net.zombies, net.finished;
    assert zombies[..i + 1][..i] == zombies[..i];
    if zombies[i] in finished {
      var cut := Cut(zombies, i);
      assert cut[..i] == zombies[..i] && cut[i..] == zombies[i + 1..];
    } else {
      assert Unfinished(finished, zombies[..i]) + [zombies[i]] + zombies[i + 1..]
          == Unfinished(finished, zombies[..i]) + zombies[i..];
    }
  }

  /** Exactly the finished zombies leave. */
  lemma CleanZombiesStay(net: Net)
    requires Inv(net)
    ensures CleanZombies(net, |net.zombies|).zombies == Unfinished(net.finished, net.zombies)
  {
    forall n: Net, j: nat | Inv(n) && j < |n.zombies|
      ensures Inv(ZombieGone(n, j)) && UnfinishedUpTo(ZombieGone(n, j), j) == UnfinishedUpTo(n, j + 1)
    {
      ZombieGoneKeeps(n, j);
      ZombieGoneStays(n, j);
    }
    CleanZombiesCarries(net, |net.zombies|, n => Inv(n), (n, j) => UnfinishedUpTo(n, j));
    UnfinishedEnds(net);
    UnfinishedEnds(CleanZombies(net, |net.zombies|));
  }

  lemma UnfinishedEnds(net: Net)
    ensures UnfinishedUpTo(net, 0) == net.zombies
    ensures UnfinishedUpTo(net, |net.zombies|) == Unfinished(net.finished, net.zombies)
  {
    var all := net.zombies;
    assert all[..0] == [] && all[0..] == all && all[..|all|] == all && all[|all|..] == [];
  }

  /** New zombies are not finished, and the others are not touched by clients that leave. */
  lemma ClientGoneSparesZombies(net: Net, i: nat, zombie: nat -> bool)
    requires Inv(net) && i < |net.clients|
    ensures var net' := ClientGone(net, i, zombie);
            LostWithZombies(net', |net'.zombies|) == LostWithZombies(net, |net.zombies|)
  {
    var c, net', n := net.clients[i], ClientGone(net, i, zombie), |net.zombies|;
    forall j | 0 <= j < n
      ensures LostWithZombie(net', j) == LostWithZombie(net, j)
    {
      assert net.zombies[j] in net.zombies;
      DestroyedFrees(net, c, zombie(c), OfZombie(net.zombies[j]));
    }
    LostWithZombiesFrame(net, net', n);
    assert |net'.zombies| > n ==> LostWithZombie(net', n) == [];
  }

  lemma CleanClientsSpareZombies(net: Net, zombie: nat -> bool)
    requires Inv(net)
    ensures var net' := CleanClients(net, |net.clients|, zombie);
            LostWithZombies(net', |net'.zombies|) == LostWithZombies(net, |net.zombies|)
  {
    forall n: Net, j: nat | Inv(n) && j < |n.clients|
      ensures var n' := ClientGone(n, j, zombie);
              Inv(n') && LostWithZombies(n', |n'.zombies|) == LostWithZombies(n, |n.zombies|)
    {
      ClientGoneKeeps(n, j, zombie);
      ClientGoneSparesZombies(n, j, zombie);
    }
    CleanClientsCarries(net, |net.clients|, zombie, n => Inv(n), (n: Net, j) => LostWithZombies(n, |n.zombies|));
  }

  /** Cleaning up frees the requests of disconnected clients for which no zombie could be created and those of finished
      zombies, and no others. */
  lemma CleanedFrees(net: Net, zombie: nat -> bool)
    requires Inv(net)
    ensures Cleaned(net, zombie).freed
         == net.freed + LostWithClients(net, |net.clients|, zombie) + LostWithZombies(net, |net.zombies|)
  {
    CleanClientsFrees(net, zombie);
    CleanClientsSpareZombies(net, zombie);
    CleanClientsKeeps(net, |net.clients|, zombie);
    CleanZombiesFrees(CleanClients(net, |net.clients|, zombie));
  }

  // ----- shutting down

  /** The clients of the array are destroyed, from position `i` on. */
  function DestroyClients(net: Net, i: nat, zombie: nat -> bool): (net': Net)
    ensures net'.clients == net.clients
    decreases |net.clients| - i
  {
    if i >= |net.clients| then net
    else DestroyClients(Destroyed(net, net.clients[i], zombie(net.clients[i])), i + 1, zombie)
  }

  function DestroyZombies(net: Net, i: nat): (net': Net)
    ensures net'.zombies == net.zombies && net'.clients == net.clients
    decreases |net.zombies| - i
  {
    if i >= |net.zombies| then net else DestroyZombies(FreeAll(net, OfZombie(net.zombies[i])), i + 1)
  }

  function Exited(net: Net, zombie: nat -> bool): Net {
    DestroyZombies(DestroyClients(net, 0, zombie).(clients := []), 0).(zombies := [])
  }

  lemma {:induction false} FreeAllLeavesNone(net: Net, o: Owner, p: Owner)
    requires Of(net.pending, p) == []
    ensures Of(FreeAll(net, o).pending, p) == []
    decreases |net.pending|
  {
    var k := FirstOf(net, o);
    if k < |net.pending| {
      OfWithout(net.pending, k, p);
      FreeAllLeavesNone(Freed(net, k), o, p);
    }
  }

  lemma DestroyedLeavesNone(net: Net, c: nat, zombie: bool, d: nat)
    requires Inv(net) && Of(net.pending, OfClient(d)) == []
    ensures Of(Destroyed(net, c, zombie).pending, OfClient(d)) == []
  {
    FreeAllLeavesNone(net, OfClient(c), OfClient(d));
    NoSuchOwner(net, OfZombie(net.nextZombie));
    OfRelabel(net.pending, OfClient(c), OfZombie(net.nextZombie), OfClient(d));
  }

  /** The first `n` clients, or zombies, have no requests left. */
  ghost predicate ClientsDone(net: Net, n: nat) {
    forall j :: 0 <= j < n && j < |net.clients| ==> Of(net.pending, OfClient(net.clients[j])) == []
  }

  ghost predicate ZombiesDone(net: Net, n: nat) {
    forall j :: 0 <= j < n && j < |net.zombies| ==> Of(net.pending, OfZombie(net.zombies[j])) == []
  }

  lemma OneClientDone(net: Net, i: nat, zombie: bool)
    requires Inv(net) && i < |net.clients| && ClientsDone(net, i)
    ensures Inv(Destroyed(net, net.clients[i], zombie)) && ClientsDone(Destroyed(net, net.clients[i], zombie), i + 1)
  {
    var c := net.clients[i];
    DestroyedKeeps(net, c, zombie);
    forall j | 0 <= j < i
      ensures Of(Destroyed(net, c, zombie).pending, OfClient(net.clients[j])) == []
    {
      DestroyedLeavesNone(net, c, zombie, net.clients[j]);
    }
  }

  lemma OneZombieDone(net: Net, i: nat)
    requires Inv(net) && i < |net.zombies| && ZombiesDone(net, i)
    ensures var net' := FreeAll(net, OfZombie(net.zombies[i])); Inv(net') && ZombiesDone(net', i + 1)
  {
    var o := OfZombie(net.zombies[i]);
    FreeAllKeeps(net, o);
    forall j | 0 <= j < i
      ensures Of(FreeAll(net, o).pending, OfZombie(net.zombies[j])) == []
    {
      FreeAllLeavesNone(net, o, OfZombie(net.zombies[j]));
    }
  }

  lemma {:induction false} AllClientsDone(net: Net, i: nat, zombie: nat -> bool)
    requires Inv(net) && ClientsDone(net, i)
    ensures var net' := DestroyClients(net, i, zombie); Inv(net') && ClientsDone(net', |net.clients|)
    decreases |net.clients| - i
  {
    if i < |net.clients| {
      OneClientDone(net, i, zombie(net.clients[i]));
      AllClientsDone(Destroyed(net, net.clients[i], zombie(net.clients[i])), i + 1, zombie);
    }
  }

  lemma {:induction false} AllZombiesDone(net: Net, i: nat)
    requires Inv(net) && ZombiesDone(net, i)
    ensures var net' := DestroyZombies(net, i); Inv(net') && ZombiesDone(net', |net.zombies|)
    decreases |net.zombies| - i
  {
    if i < |net.zombies| {
      OneZombieDone(net, i);
      AllZombiesDone(FreeAll(net, OfZombie(net.zombies[i])), i + 1);
    }
  }

  lemma ClientsCleared(net: Net)
    requires Inv(net) && ClientsDone(net, |net.clients|)
    ensures Inv(net.(clients := []))
  {
    forall r | r in net.pending
      ensures Live(net.(clients := []), r.owner)
    {
      assert Live(net, r.owner);
      if r.owner.OfClient? {
        var j :| 0 <= j < |net.clients| && net.clients[j] == r.owner.client;
        NotOfNone(net.pending, OfClient(net.clients[j]), r);
      }
    }
  }

  lemma ZombiesCleared(net: Net)
    requires Inv(net) && ZombiesDone(net, |net.zombies|)
    ensures Inv(net.(zombies := []))
  {
    forall r | r in net.pending
      ensures Live(net.(zombies := []), r.owner)
    {
      assert Live(net, r.owner);
      if r.owner.OfZombie? {
        var j :| 0 <= j < |net.zombies| && net.zombies[j] == r.owner.zombie;
        NotOfNone(net.pending, OfZombie(net.zombies[j]), r);
      }
    }
  }

  /** Shutting down frees everything, whether or not zombies can still be created. */
  lemma ExitEmpties(net: Net, zombie: nat -> bool)
    requires Inv(net)
    ensures Inv(Exited(net, zombie)) && Exited(net, zombie).pending == []
    ensures Exited(net, zombie).clients == [] && Exited(net, zombie).zombies == []
  {
    AllClientsDone(net, 0, zombie);
    ClientsCleared(DestroyClients(net, 0, zombie));
    var net1 := DestroyClients(net, 0, zombie).(clients := []);
    AllZombiesDone(net1, 0);
    ZombiesCleared(DestroyZombies(net1, 0));
    NobodyNothing(Exited(net, zombie));
  }

  // ----- every run

  /** What can happen to the network; `zombie`, `room` and the outcomes of writes are up to the environment. */
  datatype Event =
    | Connect(open: bool)
    | Change(client: nat, disconnected: bool, open: bool)
    | Expect(client: nat, header: Header, room: bool)
    | Respond(response: Response, writes: nat -> Write)
    | Own(client: nat, response: Response, force: bool, ignore: bool, write: Write)
    | Announce(uids: seq<nat>, outcomes: nat -> nat -> Write)
    | Timeout(zombie: nat)
    | Cleanup(creates: nat -> bool)
    | Exit(creates: nat -> bool)

  function Step(net: Net, e: Event, matching: Matching): Net {
    match e
    case Connect(open) => Connected(net, open)
    case Change(c, disconnected, open) =>
      net.(client := net.client[c := At(net, c).(disconnected := disconnected, open := open)])
    case Expect(c, header, room) => if c in net.clients then Expected(net, c, header, room) else net
    case Respond(response, writes) => Dispatched(net, response, matching, writes)
    case Own(c, response, force, ignore, write) =>
      if c in net.clients then ToClient(net, c, |net.pending|, response, force, ignore, matching, write) else net
    case Announce(uids, outcomes) => Announced(net, uids, |uids|, matching, outcomes)
    case Timeout(z) => if z in net.zombies then net.(finished := net.finished + {z}) else net
    case Cleanup(creates) => Cleaned(net, creates)
    case Exit(creates) => Exited(net, creates)
  }

  /** What events do to the state of clients and zombies. */
  lemma EventEffects(net: Net, matching: Matching, c: nat, b: bool, open: bool, z: nat)
    ensures At(Step(net, Change(c, b, open), matching), c) == Client(b, open, At(net, c).written)
    ensures Step(net, Timeout(z), matching).finished == if z in net.zombies then net.finished + {z} else net.finished
    ensures var net' := Step(net, Connect(open), matching);
            && net'.clients == net.clients + [net.nextClient] && At(net', net.nextClient) == Client(false, open, [])
            && net'.pending == net.pending && net'.zombies == net.zombies
  {
  }

  /** A request that is expected joins the end of its client's list; a response of the daemon's own that is forced is
      offered to its client. */
  lemma OwnEventEffects(net: Net, matching: Matching, c: nat, header: Header, response: Response, w: Write)
    requires Inv(net) && c in net.clients
    ensures var own := Of(Step(net, Expect(c, header, true), matching).pending, OfClient(c));
            own != [] && own[|own| - 1] == Request(net.nextRequest, OfClient(c), header)
    ensures At(Step(net, Own(c, response, true, false, w), matching), c) == Offered(At(net, c), response, w)
  {
    ExpectedJoins(net, c, header, OfClient(c));
    ForcedIsOffered(net, c, response, matching, w);
  }

  function Run(events: seq<Event>, matching: Matching): Net {
    if events == [] then START else Step(Run(events[..|events| - 1], matching), events[|events| - 1], matching)
  }

  lemma CleanedKeeps(net: Net, zombie: nat -> bool)
    requires Inv(net)
    ensures Inv(Cleaned(net, zombie))
  {
    CleanClientsKeeps(net, |net.clients|, zombie);
    var net' := CleanClients(net, |net.clients|, zombie);
    CleanZombiesKeeps(net', |net'.zombies|);
  }

  lemma StepIs(net: Net, e: Event, matching: Matching, keeps: Net -> bool)
    requires keeps(net)
    requires match e
             case Connect(open) => keeps(Connected(net, open))
             case Change(c, disconnected, open) =>
               keeps(net.(client := net.client[c := At(net, c).(disconnected := disconnected, open := open)]))
             case Expect(c, header, room) => c in net.clients ==> keeps(Expected(net, c, header, room))
             case Respond(response, writes) => keeps(Dispatched(net, response, matching, writes))
             case Own(c, response, force, ignore, write) =>
               keeps(ToClient(net, c, |net.pending|, response, force, ignore, matching, write))
             case Announce(uids, outcomes) => keeps(Announced(net, uids, |uids|, matching, outcomes))
             case Timeout(z) => z in net.zombies ==> keeps(net.(finished := net.finished + {z}))
             case Cleanup(creates) => keeps(Cleaned(net, creates))
             case Exit(creates) => keeps(Exited(net, creates))
    ensures keeps(Step(net, e, matching))
  {
  }

  lemma StepKeeps(net: Net, e: Event, matching: Matching)
    requires Inv(net)
    ensures Inv(Step(net, e, matching))
  {
    match e {
      case Connect(open) => ConnectedKeeps(net, open);
      case Change(c, disconnected, open) =>
      case Expect(c, header, room) => if c in net.clients { ExpectedKeeps(net, c, header, room); }
      case Respond(response, writes) => DispatchedKeeps(net, response, matching, writes);
      case Own(c, response, force, ignore, write) =>
        ToClientKeeps(net, c, |net.pending|, response, force, ignore, matching, write);
      case Announce(uids, outcomes) => AnnouncedKeeps(net, uids, |uids|, matching, outcomes);
      case Timeout(z) =>
      case Cleanup(creates) => CleanedKeeps(net, creates);
      case Exit(creates) => ExitEmpties(net, creates);
    }
    StepIs(net, e, matching, n => Inv(n));
  }

  /** What holds of every reachable state. */
  lemma {:induction false} RunKeeps(events: seq<Event>, matching: Matching)
    ensures Inv(Run(events, matching))
  {
    if events != [] {
      RunKeeps(events[..|events| - 1], matching);
      StepKeeps(Run(events[..|events| - 1], matching), events[|events| - 1], matching);
    }
  }

  /** In every reachable state each request that was allocated is pending or was freed, and freed at most once. */
  lemma FreedExactlyOnce(events: seq<Event>, matching: Matching, x: nat)
    ensures var net := Run(events, matching);
            Times(net.freed, x) + Times(Ids(net.pending), x) == if x < net.nextRequest then 1 else 0
  {
    RunKeeps(events, matching);
  }

  /** After the network has shut down each request was freed exactly once. */
  lemma AllFreedAtExit(events: seq<Event>, matching: Matching, creates: nat -> bool, x: nat)
    ensures var net := Run(events + [Exit(creates)], matching);
            net.pending == [] && Times(net.freed, x) == if x < net.nextRequest then 1 else 0
  {
    RunKeeps(events, matching);
    assert (events + [Exit(creates)])[..|events|] == events;
    ExitEmpties(Run(events, matching), creates);
    FreedExactlyOnce(events + [Exit(creates)], matching, x);
  }
}
