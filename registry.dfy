/** The server's broadcast registry: the shared list of outbound handles, one per session. */
module Registry {
  import opened Wire

  /** An outbound channel endpoint. `open` is false once its receiving end has been dropped,
      after which every send into it fails; `outbox` is everything queued into it so far. */
  datatype Handle = Handle(id: nat, open: bool, outbox: seq<Message>)

  predicate Registered(hs: seq<Handle>, id: nat)
  {
    exists k :: 0 <= k < |hs| && hs[k].id == id
  }

  /** No two entries share an identity. */
  predicate Unique(hs: seq<Handle>)
  {
    forall i, j :: 0 <= i < j < |hs| ==> hs[i].id != hs[j].id
  }

  /** One send into one handle: queued if the receiver is alive, silently dropped otherwise. */
  function Deliver(h: Handle, m: Message): Handle
  {
    if h.open then h.(outbox := h.outbox + [m]) else h
  }

  /** The registry after a clone of `m` has been sent into every handle, failures ignored:
      each entry receives its own send, in place. */
  function Delivered(hs: seq<Handle>, m: Message): (r: seq<Handle>)
    ensures |r| == |hs|
    ensures forall k :: 0 <= k < |hs| ==> r[k] == Deliver(hs[k], m)
  {
    if hs == [] then [] else [Deliver(hs[0], m)] + Delivered(hs[1..], m)
  }

  /** Broadcast appends the message unchanged to every open handle, skips a closed one without
      stopping, and changes no identity, no open flag and no length. */
  lemma DeliveredEffect(hs: seq<Handle>, m: Message)
    ensures |Delivered(hs, m)| == |hs|
    ensures forall k :: 0 <= k < |hs| ==>
              Delivered(hs, m)[k].id == hs[k].id && Delivered(hs, m)[k].open == hs[k].open
    ensures forall k :: 0 <= k < |hs| ==>
              Delivered(hs, m)[k].outbox == if hs[k].open then hs[k].outbox + [m] else hs[k].outbox
  {
  }

  /** The registry after the broadcasts of `ms`, one after the other. */
  function DeliveredAll(hs: seq<Handle>, ms: seq<Message>): seq<Handle>
    decreases |ms|
  {
    if ms == [] then hs else DeliveredAll(Delivered(hs, ms[0]), ms[1..])
  }

  /** `retain` of every handle that is not the one identified by `id`. */
  function Removed(hs: seq<Handle>, id: nat): (r: seq<Handle>)
    ensures |r| <= |hs|
  {
    if hs == [] then []
    else (if hs[0].id == id then [] else [hs[0]]) + Removed(hs[1..], id)
  }

  /** The registry once the receiving end of the handle `id` has been dropped. */
  function Closed(hs: seq<Handle>, id: nat): (r: seq<Handle>)
    ensures |r| == |hs|
    ensures forall k :: 0 <= k < |hs| ==>
              r[k] == if hs[k].id == id then hs[k].(open := false) else hs[k]
  {
    if hs == [] then []
    else [if hs[0].id == id then hs[0].(open := false) else hs[0]] + Closed(hs[1..], id)
  }

  /** Entry `k` after a run of broadcasts. */
  lemma {:induction false} RelayAt(hs: seq<Handle>, ms: seq<Message>, k: nat)
    requires k < |hs|
    ensures |DeliveredAll(hs, ms)| == |hs|
    ensures DeliveredAll(hs, ms)[k] == if hs[k].open then hs[k].(outbox := hs[k].outbox + ms) else hs[k]
    decreases |ms|
  {
    if ms == [] {
      assert hs[k].outbox + ms == hs[k].outbox;
    } else {
      var next := Delivered(hs, ms[0]);
      assert DeliveredAll(hs, ms) == DeliveredAll(next, ms[1..]);
      RelayAt(next, ms[1..], k);
      var h := hs[k];
      assert next[k] == Deliver(h, ms[0]);
      if h.open {
        assert ms == [ms[0]] + ms[1..];
        assert next[k].outbox + ms[1..] == h.outbox + ms;
      }
    }
  }

  /** A run of broadcasts appends the messages, in order and unchanged, to every open handle,
      skips the closed ones, and changes nothing else. */
  lemma RelayInOrder(hs: seq<Handle>, ms: seq<Message>)
    ensures |DeliveredAll(hs, ms)| == |hs|
    ensures forall k :: 0 <= k < |hs| ==>
              DeliveredAll(hs, ms)[k].id == hs[k].id && DeliveredAll(hs, ms)[k].open == hs[k].open
    ensures forall k :: 0 <= k < |hs| ==>
              DeliveredAll(hs, ms)[k].outbox == hs[k].outbox + (if hs[k].open then ms else [])
  {
    if hs == [] {
      RelayEmpty(ms);
    }
    forall k | 0 <= k < |hs|
      ensures |DeliveredAll(hs, ms)| == |hs|
      ensures DeliveredAll(hs, ms)[k].id == hs[k].id && DeliveredAll(hs, ms)[k].open == hs[k].open
      ensures DeliveredAll(hs, ms)[k].outbox == hs[k].outbox + (if hs[k].open then ms else [])
    {
      RelayAt(hs, ms, k);
    }
  }

  /** Broadcasting into an empty registry leaves it empty. */
  lemma {:induction false} RelayEmpty(ms: seq<Message>)
    ensures DeliveredAll([], ms) == []
    decreases |ms|
  {
    if ms != [] {
      RelayEmpty(ms[1..]);
    }
  }

  /** Broadcasts distribute over a split of the registry. */
  lemma {:induction false} DeliveredAllConcat(a: seq<Handle>, b: seq<Handle>, ms: seq<Message>)
    ensures DeliveredAll(a + b, ms) == DeliveredAll(a, ms) + DeliveredAll(b, ms)
    decreases |ms|
  {
    if ms != [] {
      assert Delivered(a + b, ms[0]) == Delivered(a, ms[0]) + Delivered(b, ms[0]);
      DeliveredAllConcat(Delivered(a, ms[0]), Delivered(b, ms[0]), ms[1..]);
    }
  }

  /** Removal distributes over a split of the registry. */
  lemma {:induction false} RemovedConcat(a: seq<Handle>, b: seq<Handle>, id: nat)
    ensures Removed(a + b, id) == Removed(a, id) + Removed(b, id)
    decreases |a|
  {
    if a == [] {
      assert a + b == b;
    } else {
      var head := if a[0].id == id then [] else [a[0]];
      assert (a + b)[0] == a[0] && (a + b)[1..] == a[1..] + b;
      assert Removed(a + b, id) == head + Removed(a[1..] + b, id);
      RemovedConcat(a[1..], b, id);
      assert Removed(a, id) == head + Removed(a[1..], id);
    }
  }

  /** Removing an identity that is not registered leaves the registry unchanged. */
  lemma {:induction false} RemovedAbsent(hs: seq<Handle>, id: nat)
    requires !Registered(hs, id)
    ensures Removed(hs, id) == hs
    decreases |hs|
  {
    if hs != [] {
      assert hs[0].id != id;
      assert !Registered(hs[1..], id) by {
        forall k | 0 <= k < |hs[1..]| ensures hs[1..][k].id != id {
          assert hs[1..][k] == hs[k + 1];
        }
      }
      RemovedAbsent(hs[1..], id);
    }
  }

  /** A removal keeps exactly the entries of other identities: nothing is invented,
      the removed identity is gone, and every other entry survives. */
  lemma {:induction false} RemovedMembers(hs: seq<Handle>, id: nat)
    ensures forall h :: h in Removed(hs, id) <==> h in hs && h.id != id
    decreases |hs|
  {
    if hs != [] {
      RemovedMembers(hs[1..], id);
      var head := if hs[0].id == id then [] else [hs[0]];
      assert Removed(hs, id) == head + Removed(hs[1..], id);
      assert hs == [hs[0]] + hs[1..];
    }
  }

  /** After a removal the identity is no longer registered. */
  lemma RemovedGone(hs: seq<Handle>, id: nat)
    ensures !Registered(Removed(hs, id), id)
  {
    var r := Removed(hs, id);
    RemovedMembers(hs, id);
    forall k | 0 <= k < |r| ensures r[k].id != id {
      assert r[k] in r;
    }
  }

  /** Deregistration is idempotent: a second removal of the same identity changes nothing. */
  lemma RemovedIdempotent(hs: seq<Handle>, id: nat)
    ensures Removed(Removed(hs, id), id) == Removed(hs, id)
  {
    RemovedGone(hs, id);
    RemovedAbsent(Removed(hs, id), id);
  }

  /** In a registry without duplicates, the identity at position `k` occurs nowhere else. */
  lemma UniqueApart(hs: seq<Handle>, k: nat)
    requires Unique(hs) && k < |hs|
    ensures !Registered(hs[..k], hs[k].id) && !Registered(hs[k + 1..], hs[k].id)
  {
    var before, after := hs[..k], hs[k + 1..];
    forall j | 0 <= j < |before| ensures before[j].id != hs[k].id {
      assert before[j] == hs[j];
    }
    forall j | 0 <= j < |after| ensures after[j].id != hs[k].id {
      assert after[j] == hs[k + 1 + j];
    }
  }

  /** Removal of a registry that starts with `h`. */
  lemma RemovedCons(h: Handle, t: seq<Handle>, id: nat)
    ensures Removed([h] + t, id) == (if h.id == id then [] else [h]) + Removed(t, id)
  {
    assert ([h] + t)[0] == h && ([h] + t)[1..] == t;
  }

  /** Removing the handle at position `k` of a registry without duplicates drops exactly that
      entry and keeps every other one, in its original order. */
  lemma {:induction false} RemovedOne(hs: seq<Handle>, k: nat)
    requires Unique(hs) && k < |hs|
    ensures Removed(hs, hs[k].id) == hs[..k] + hs[k + 1..]
  {
    var id := hs[k].id;
    var before, rest, after := hs[..k], hs[k..], hs[k + 1..];
    assert hs == before + rest;
    assert rest == [hs[k]] + after;
    UniqueApart(hs, k);
    RemovedAbsent(before, id);
    RemovedAbsent(after, id);
    RemovedCons(hs[k], after, id);
    RemovedConcat(before, rest, id);
  }

  /** A removal keeps the registry free of duplicates. */
  lemma {:induction false} RemovedUnique(hs: seq<Handle>, id: nat)
    requires Unique(hs)
    ensures Unique(Removed(hs, id))
    decreases |hs|
  {
    if hs != [] {
      var tail := hs[1..];
      assert Unique(tail) by {
        forall i, j | 0 <= i < j < |tail| ensures tail[i].id != tail[j].id {
          assert tail[i] == hs[i + 1] && tail[j] == hs[j + 1];
        }
      }
      RemovedUnique(tail, id);
      var rt := Removed(tail, id);
      RemovedMembers(tail, id);
      if hs[0].id != id {
        forall j | 0 <= j < |rt| ensures rt[j].id != hs[0].id {
          assert rt[j] in tail;
          var t :| 0 <= t < |tail| && tail[t] == rt[j];
          assert tail[t] == hs[t + 1];
        }
        assert Removed(hs, id) == [hs[0]] + rt;
      }
    }
  }

  /** Delivering and then removing equals removing and then delivering. */
  lemma {:induction false} RemovedDelivered(hs: seq<Handle>, id: nat, m: Message)
    ensures Removed(Delivered(hs, m), id) == Delivered(Removed(hs, id), m)
    decreases |hs|
  {
    if hs != [] {
      var d := Delivered(hs, m);
      assert d == [Deliver(hs[0], m)] + Delivered(hs[1..], m);
      assert d[1..] == Delivered(hs[1..], m);
      RemovedDelivered(hs[1..], id, m);
      var head := if hs[0].id == id then [] else [hs[0]];
      assert Delivered(head + Removed(hs[1..], id), m)
          == Delivered(head, m) + Delivered(Removed(hs[1..], id), m);
    }
  }

  /** The shared registry: the `Vec<Tx>` behind the server's mutex. `Register`, `Broadcast` and
      `Deregister` each run under the lock; `DropReceiver` is a session dropping its receiver,
      which needs no lock. `nextId` issues the identity of each newly created channel. */
  class Registry {
    var clients: seq<Handle>
    var nextId: nat

    ghost predicate Valid()
      reads this
    {
      Unique(clients) && forall k :: 0 <= k < |clients| ==> clients[k].id < nextId
    }

    constructor ()
      ensures Valid() && clients == [] && nextId == 0
    {
      clients := [];
      nextId := 0;
    }

    /** `push` of a fresh channel's sender: one new open handle at the end. */
    method Register() returns (id: nat)
      requires Valid()
      modifies this
      ensures Valid()
      ensures id == old(nextId) && nextId == old(nextId) + 1
      ensures !Registered(old(clients), id)
      ensures clients == old(clients) + [Handle(id, true, [])]
    {
      id := nextId;
      clients := clients + [Handle(id, true, [])];
      nextId := nextId + 1;
    }

    /** Send a clone of `m` into every registered handle, ignoring each failed send. */
    method Broadcast(m: Message)
      requires Valid()
      modifies this
      ensures Valid() && nextId == old(nextId)
      ensures clients == Delivered(old(clients), m)
    {
      for i := 0 to |clients|
        invariant nextId == old(nextId)
        invariant |clients| == |old(clients)|
        invariant forall k :: 0 <= k < i ==> clients[k] == Deliver(old(clients)[k], m)
        invariant forall k :: i <= k < |clients| ==> clients[k] == old(clients)[k]
      {
        clients := clients[i := Deliver(clients[i], m)];
      }
    }

    /** `retain` of every handle that is not the channel `id`. */
    method Deregister(id: nat)
      requires Valid()
      modifies this
      ensures Valid() && nextId == old(nextId)
      ensures clients == Removed(old(clients), id)
    {
      var all := clients;
      var kept: seq<Handle> := [];
      for i := 0 to |all|
        invariant clients == all && nextId == old(nextId)
        invariant kept == Removed(all[..i], id)
      {
        assert all[..i + 1] == all[..i] + [all[i]];
        RemovedConcat(all[..i], [all[i]], id);
        assert [all[i]][1..] == [];
        if all[i].id != id {
          kept := kept + [all[i]];
        }
      }
      assert all[..|all|] == all;
      RemovedUnique(all, id);
      RemovedMembers(all, id);
      clients := kept;
    }

    /** The receiving end of channel `id` is dropped: later sends into it fail. */
    method DropReceiver(id: nat)
      requires Valid()
      modifies this
      ensures Valid() && nextId == old(nextId)
      ensures clients == Closed(old(clients), id)
    {
      clients := Closed(clients, id);
    }
  }
}
