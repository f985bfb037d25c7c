/** The table of devices that a stack knows, and what happens when the stack goes away. */
module Stack {
  import opened Wrappers
  import opened Routing
  import Network

  /** `handle` is what the stack needs to address the device. */
  datatype Recipient = Recipient(uid: nat, handle: nat)

  /** The table as a partial map from UIDs to handles. */
  function Lookup(recipients: seq<Recipient>, uid: nat): Option<nat> {
    if recipients == [] then None
    else if recipients[0].uid == uid then Some(recipients[0].handle)
    else Lookup(recipients[1..], uid)
  }

  function Uids(recipients: seq<Recipient>): (s: seq<nat>)
    ensures |s| == |recipients|
  {
    seq(|recipients|, i requires 0 <= i < |recipients| => recipients[i].uid)
  }

  /** The first `n` entries are for other UIDs. */
  ghost predicate Absent(recipients: seq<Recipient>, n: nat, uid: nat) {
    forall i :: 0 <= i < n && i < |recipients| ==> recipients[i].uid != uid
  }

  lemma {:induction false} LookupFound(recipients: seq<Recipient>, i: nat, uid: nat)
    requires i <= |recipients| && Absent(recipients, i, uid) && (i < |recipients| ==> recipients[i].uid == uid)
    ensures Lookup(recipients, uid) == if i < |recipients| then Some(recipients[i].handle) else None
  {
    if i > 0 {
      LookupFound(recipients[1..], i - 1, uid);
    }
  }

  lemma {:induction false} LookupReplaced(recipients: seq<Recipient>, i: nat, handle: nat, u: nat)
    requires i < |recipients| && Absent(recipients, i, recipients[i].uid)
    ensures var r := recipients[i].(handle := handle);
            Lookup(recipients[i := r], u) == if u == r.uid then Some(handle) else Lookup(recipients, u)
  {
    if i > 0 {
      LookupReplaced(recipients[1..], i - 1, handle, u);
      assert recipients[i := recipients[i].(handle := handle)][1..]
          == recipients[1..][i - 1 := recipients[i].(handle := handle)];
    } else {
      assert recipients[0 := recipients[0].(handle := handle)][1..] == recipients[1..];
    }
  }

  lemma {:induction false} LookupAppended(recipients: seq<Recipient>, r: Recipient, u: nat)
    requires Absent(recipients, |recipients|, r.uid)
    ensures Lookup(recipients + [r], u) == if u == r.uid then Some(r.handle) else Lookup(recipients, u)
  {
    if recipients != [] {
      LookupAppended(recipients[1..], r, u);
      assert (recipients + [r])[1..] == recipients[1..] + [r];
    }
  }

  class Table {
    var recipients: seq<Recipient>

    /** No UID is in the table twice. */
    ghost predicate Valid()
      reads this
    {
      forall i, j :: 0 <= i < j < |recipients| ==> recipients[i].uid != recipients[j].uid
    }

    constructor ()
      ensures Valid() && recipients == []
    {
      recipients := [];
    }

    /** Adds a device or gives a known one a new handle; `room` says whether the array can grow. */
    method Add(uid: nat, handle: nat, room: bool) returns (ok: bool)
      requires Valid()
      modifies this
      ensures Valid() && ok == (room || Lookup(old(recipients), uid).Some?)
      ensures forall u :: Lookup(recipients, u)
                       == if ok && u == uid then Some(handle) else Lookup(old(recipients), u)
      ensures Uids(recipients)
           == if ok && Lookup(old(recipients), uid).None? then Uids(old(recipients)) + [uid] else Uids(old(recipients))
    {
      var i := 0;
      while i < |recipients|
        invariant i <= |recipients| && recipients == old(recipients) && Absent(recipients, i, uid)
      {
        if recipients[i].uid == uid {
          LookupFound(recipients, i, uid);
          forall u {
            LookupReplaced(recipients, i, handle, u);
          }
          recipients := recipients[i := recipients[i].(handle := handle)];
          assert Uids(recipients) == Uids(old(recipients));
          return true;
        }
        i := i + 1;
      }
      LookupFound(recipients, i, uid);
      if !room {
        return false;
      }
      forall u {
        LookupAppended(recipients, Recipient(uid, handle), u);
      }
      recipients := recipients + [Recipient(uid, handle)];
      assert Uids(recipients) == Uids(old(recipients)) + [uid];
      return true;
    }

    method Get(uid: nat) returns (handle: Option<nat>)
      ensures handle == Lookup(recipients, uid)
    {
      var i := 0;
      while i < |recipients|
        invariant i <= |recipients| && Absent(recipients, i, uid)
      {
        if recipients[i].uid == uid {
          LookupFound(recipients, i, uid);
          return Some(recipients[i].handle);
        }
        i := i + 1;
      }
      LookupFound(recipients, i, uid);
      return None;
    }

    /** Sends the farewell of every device in the table through the network. */
    method Announce(network: Network.State, writes: nat -> nat -> Write)
      requires network.Valid()
      modifies network
      ensures network.Valid()
      ensures network.net
           == Announced(old(network.net), Uids(recipients), |recipients|, network.matching, writes)
    {
      var i := 0;
      ghost var uids := Uids(recipients);
      while i < |recipients|
        invariant i <= |recipients| && network.Valid()
        invariant network.net == Announced(old(network.net), uids, i, network.matching, writes)
      {
        network.DispatchResponse(Farewell(recipients[i].uid), writes(i));
        i := i + 1;
      }
    }

    /** Afterwards no request for a device of this stack is pending; the others are as they were. */
    method AnnounceDisconnect(network: Network.State, writes: nat -> nat -> Write)
      requires network.Valid()
      modifies network
      ensures network.Valid() && network.net.pending == Kept(old(network.net).pending, Named(Uids(recipients)))
    {
      ghost var uids := Uids(recipients);
      AnnouncedDropsAll(network.net, uids, |uids|, network.matching, writes);
      assert uids[..|uids|] == uids;
      Announce(network, writes);
    }
  }
}
