/** One client session of the server: registration, handshake, join notice, relay of every
    inbound frame, deregistration and exit notice, and the writer that drains the outbox. */
module Handler {
  import opened Wire
  import opened Registry

  /** The system notice sent to everyone once a session has its display name. */
  function JoinNotice(name: string): Message
  {
    Text("-- " + name + " is entering. --")
  }

  /** The system notice sent to the remaining handles after a read error. */
  function ExitNotice(name: string): Message
  {
    Text("-- " + name + " is exited. --")
  }

  /** The display name, when the first inbound item is a text message. */
  function Handshake(inbound: seq<Inbound>): Option<string>
  {
    if |inbound| > 0 && inbound[0].Received? && inbound[0].msg.Text?
    then Some(inbound[0].msg.text)
    else None
  }

  /** The messages the reader loop relays: each received message up to the first error. */
  function Relayed(frames: seq<Inbound>): seq<Message>
  {
    if frames == [] || frames[0].Fault? then [] else [frames[0].msg] + Relayed(frames[1..])
  }

  /** What the session's reader loop sends to the registry: the relayed messages, and the
      exit notice when the loop ended on a read error. */
  function Sends(name: string, frames: seq<Inbound>): seq<Message>
  {
    Relayed(frames) + if Fault in frames then [ExitNotice(name)] else []
  }

  /** The reader loop of channel `id` over the frames after the handshake, then the final
      removal. On an error the handle is removed, the exit notice goes to the handles that
      remain, and the loop stops without reading further. */
  function Reader(hs: seq<Handle>, id: nat, name: string, frames: seq<Inbound>): seq<Handle>
    decreases |frames|
  {
    if frames == [] then Removed(hs, id)
    else match frames[0]
      case Received(m) => Reader(Delivered(hs, m), id, name, frames[1..])
      case Fault => Removed(Delivered(Removed(hs, id), ExitNotice(name)), id)
  }

  /** Which way a session ended. */
  datatype Outcome = UpgradeFailed | HandshakeFailed | PeerFault(name: string) | StreamEnded(name: string)

  /** The registry after one whole session of the fresh channel `id`, starting from `hs`.
      The handle is pushed before the handshake; when the handshake fails the session returns
      without removing it, and its receiver is dropped, so the entry stays behind, closed. */
  function Session(hs: seq<Handle>, id: nat, upgraded: bool, inbound: seq<Inbound>): seq<Handle>
  {
    if !upgraded then hs
    else
      var registered := hs + [Handle(id, true, [])];
      match Handshake(inbound)
      case None => Closed(registered, id)
      case Some(name) => Reader(Delivered(registered, JoinNotice(name)), id, name, inbound[1..])
  }

  function SessionOutcome(upgraded: bool, inbound: seq<Inbound>): Outcome
  {
    if !upgraded then UpgradeFailed
    else match Handshake(inbound)
      case None => HandshakeFailed
      case Some(name) => if Fault in inbound[1..] then PeerFault(name) else StreamEnded(name)
  }

  /** The reader loop amounts to broadcasting what it sends, followed by one removal. */
  lemma {:induction false} ReaderEffect(hs: seq<Handle>, id: nat, name: string, frames: seq<Inbound>)
    ensures Reader(hs, id, name, frames) == Removed(DeliveredAll(hs, Sends(name, frames)), id)
    decreases |frames|
  {
    if frames == [] {
      assert Sends(name, frames) == [];
    } else {
      assert frames == [frames[0]] + frames[1..];
      match frames[0]
      case Received(m) =>
        ReaderEffect(Delivered(hs, m), id, name, frames[1..]);
        assert Fault in frames <==> Fault in frames[1..];
        assert Sends(name, frames) == [m] + Sends(name, frames[1..]);
        assert ([m] + Sends(name, frames[1..]))[1..] == Sends(name, frames[1..]);
      case Fault =>
        var x := ExitNotice(name);
        assert Sends(name, frames) == [x];
        assert [x][1..] == [];
        RemovedDelivered(Removed(hs, id), id, x);
        RemovedIdempotent(hs, id);
        RemovedDelivered(hs, id, x);
        RemovedIdempotent(Delivered(hs, x), id);
    }
  }

  /** A successful session, seen from every handle that was registered before it: the join
      notice, then each relayed frame verbatim and in order, then the exit notice exactly when
      the reader stopped on an error; a closed handle receives nothing. The session's own handle
      is gone afterwards and nothing else in the registry changes. */
  lemma SessionDelivers(hs: seq<Handle>, id: nat, inbound: seq<Inbound>, name: string)
    requires !Registered(hs, id)
    requires Handshake(inbound) == Some(name)
    ensures |Session(hs, id, true, inbound)| == |hs|
    ensures forall k :: 0 <= k < |hs| ==>
              Session(hs, id, true, inbound)[k].id == hs[k].id &&
              Session(hs, id, true, inbound)[k].open == hs[k].open
    ensures forall k :: 0 <= k < |hs| ==>
              Session(hs, id, true, inbound)[k].outbox ==
                hs[k].outbox + if hs[k].open then [JoinNotice(name)] + Sends(name, inbound[1..]) else []
  {
    var own := Handle(id, true, []);
    var registered := hs + [own];
    var join := JoinNotice(name);
    var ms := [join] + Sends(name, inbound[1..]);
    ReaderEffect(Delivered(registered, join), id, name, inbound[1..]);
    assert ms[1..] == Sends(name, inbound[1..]);
    assert DeliveredAll(registered, ms) == DeliveredAll(Delivered(registered, join), ms[1..]);
    DeliveredAllConcat(hs, [own], ms);
    RemovedConcat(DeliveredAll(hs, ms), DeliveredAll([own], ms), id);
    RelayInOrder(hs, ms);
    RelayInOrder([own], ms);
    assert !Registered(DeliveredAll(hs, ms), id) by {
      forall k | 0 <= k < |hs| ensures DeliveredAll(hs, ms)[k].id != id {
        assert hs[k].id != id;
      }
    }
    RemovedAbsent(DeliveredAll(hs, ms), id);
    var single := DeliveredAll([own], ms);
    assert Removed(single, id) == [] by {
      assert single[0].id == id && single[1..] == [];
    }
  }

  /** The reader relays every frame it receives, whatever its kind: a peer that closes
      gracefully has its `Close` frame queued, after its join notice, to every open handle. */
  lemma CloseRelayed(hs: seq<Handle>, id: nat, name: string)
    requires !Registered(hs, id)
    ensures |Session(hs, id, true, [Received(Text(name)), Received(Close)])| == |hs|
    ensures forall k :: 0 <= k < |hs| && hs[k].open ==>
              Session(hs, id, true, [Received(Text(name)), Received(Close)])[k].outbox
              == hs[k].outbox + [JoinNotice(name), Close]
  {
    var inbound := [Received(Text(name)), Received(Close)];
    SessionDelivers(hs, id, inbound, name);
    var rest := inbound[1..];
    assert rest == [Received(Close)] && rest[1..] == [];
    assert Relayed(rest) == [Close];
    assert Fault !in rest;
  }

  /** The join notice also reaches the session's own handle, so its peer is notified of its own
      entry and receives its own messages back. The registry after the join broadcast and the
      relayed frames is the state the session's final `retain` starts from when the reader met
      no error (first ensures); in it, the session's own outbox holds exactly the join notice
      and the relayed frames. */
  lemma SelfNotified(hs: seq<Handle>, id: nat, name: string, frames: seq<Inbound>)
    ensures Fault !in frames ==>
              Reader(Delivered(hs + [Handle(id, true, [])], JoinNotice(name)), id, name, frames)
              == Removed(DeliveredAll(hs + [Handle(id, true, [])], [JoinNotice(name)] + Relayed(frames)), id)
    ensures |DeliveredAll(hs + [Handle(id, true, [])], [JoinNotice(name)] + Relayed(frames))| == |hs| + 1
    ensures DeliveredAll(hs + [Handle(id, true, [])], [JoinNotice(name)] + Relayed(frames))[|hs|]
            == Handle(id, true, [JoinNotice(name)] + Relayed(frames))
  {
    var registered := hs + [Handle(id, true, [])];
    var ms := [JoinNotice(name)] + Relayed(frames);
    ReaderEffect(Delivered(registered, JoinNotice(name)), id, name, frames);
    assert ms[0] == JoinNotice(name) && ms[1..] == Relayed(frames);
    assert DeliveredAll(registered, ms) == DeliveredAll(Delivered(registered, JoinNotice(name)), Relayed(frames));
    if Fault !in frames {
      assert Sends(name, frames) == Relayed(frames);
    }
    RelayInOrder(registered, ms);
  }

  /** A failed handshake sends nothing to anybody: every existing entry is unchanged and the
      only change is the session's own handle, left behind closed and empty. */
  lemma HandshakeFailureSilent(hs: seq<Handle>, id: nat, inbound: seq<Inbound>)
    requires !Registered(hs, id)
    requires Handshake(inbound).None?
    ensures Session(hs, id, true, inbound) == hs + [Handle(id, false, [])]
  {
    var registered := hs + [Handle(id, true, [])];
    assert forall k :: 0 <= k < |hs| ==> registered[k] == hs[k] && hs[k].id != id;
  }

  /** The exit notice skips the leaving handle and reaches every other open handle, whose order
      is left as it was. */
  lemma {:induction false} ExitSkipsLeaver(hs: seq<Handle>, k: nat, name: string)
    requires Unique(hs) && k < |hs|
    ensures Delivered(Removed(hs, hs[k].id), ExitNotice(name)) == Delivered(hs[..k] + hs[k + 1..], ExitNotice(name))
    ensures !Registered(Delivered(Removed(hs, hs[k].id), ExitNotice(name)), hs[k].id)
  {
    RemovedOne(hs, k);
    RemovedGone(hs, hs[k].id);
    var r := Delivered(Removed(hs, hs[k].id), ExitNotice(name));
    assert forall j :: 0 <= j < |r| ==> r[j].id == Removed(hs, hs[k].id)[j].id;
  }

  /** One received frame: relaying it and reading on is what remains of the reader loop. */
  lemma ReaderReceived(hs: seq<Handle>, id: nat, name: string, frames: seq<Inbound>, i: nat)
    requires i < |frames| && frames[i].Received?
    requires Fault !in frames[..i]
    ensures Reader(Delivered(hs, frames[i].msg), id, name, frames[i + 1..]) == Reader(hs, id, name, frames[i..])
    ensures Fault !in frames[..i + 1]
  {
    assert frames[i..][1..] == frames[i + 1..];
    assert frames[..i + 1] == frames[..i] + [frames[i]];
  }

  /** A read error: removal, the exit notice to the remaining handles and the final removal,
      which changes nothing more, are what remains of the reader loop. */
  lemma ReaderFault(hs: seq<Handle>, id: nat, name: string, frames: seq<Inbound>, i: nat)
    requires i < |frames| && frames[i].Fault?
    ensures Removed(Delivered(Removed(hs, id), ExitNotice(name)), id) == Delivered(Removed(hs, id), ExitNotice(name))
    ensures Delivered(Removed(hs, id), ExitNotice(name)) == Reader(hs, id, name, frames[i..])
    ensures Fault in frames
  {
    assert frames[i..][0] == Fault;
    RemovedIdempotent(hs, id);
    RemovedDelivered(Removed(hs, id), id, ExitNotice(name));
  }

  /** The reader loop of `handle_connection` (its `while let`), then the final removal.
      Returns whether it stopped on a read error. */
  method ReaderLoop(reg: Registry, id: nat, name: string, frames: seq<Inbound>) returns (faulted: bool)
    requires reg.Valid()
    modifies reg
    ensures reg.Valid()
    ensures reg.clients == Reader(old(reg.clients), id, name, frames)
    ensures faulted == (Fault in frames)
  {
    ghost var target := Reader(reg.clients, id, name, frames);
    faulted := false;
    var i := 0;
    while i < |frames|
      invariant i <= |frames|
      invariant reg.Valid()
      invariant Reader(reg.clients, id, name, frames[i..]) == target
      invariant Fault !in frames[..i]
    {
      match frames[i]
      case Received(m) =>
        ReaderReceived(reg.clients, id, name, frames, i);
        reg.Broadcast(m);
        i := i + 1;
      case Fault =>
        ReaderFault(reg.clients, id, name, frames, i);
        reg.Deregister(id);
        reg.Broadcast(ExitNotice(name));
        faulted := true;
        break;
    }
    if !faulted {
      assert frames[..i] == frames;
    }
    reg.Deregister(id);
  }

  /** `handle_connection`: the whole life of one session against the shared registry. Each
      lock-held block is one call on `reg`, except the error path's block, which is a
      `Deregister` and a `Broadcast` back to back; the early return drops the receiver.
      Other sessions' steps between these calls are not modelled here. */
  method HandleConnection(reg: Registry, upgraded: bool, inbound: seq<Inbound>) returns (outcome: Outcome)
    requires reg.Valid()
    modifies reg
    ensures reg.Valid()
    ensures reg.clients == Session(old(reg.clients), old(reg.nextId), upgraded, inbound)
    ensures outcome == SessionOutcome(upgraded, inbound)
  {
    if !upgraded {
      return UpgradeFailed;
    }
    var id := reg.Register();
    if |inbound| == 0 || !inbound[0].Received? || !inbound[0].msg.Text? {
      reg.DropReceiver(id);
      return HandshakeFailed;
    }
    var name := inbound[0].msg.text;
    reg.Broadcast(JoinNotice(name));
    var faulted := ReaderLoop(reg, id, name, inbound[1..]);
    outcome := if faulted then PeerFault(name) else StreamEnded(name);
  }

  /** The writer task: drain the outbox into the socket in FIFO order and stop at the first
      send the peer does not accept. `accepted[k]` is whether the k-th send succeeds. */
  method WriterLoop(queue: seq<Message>, accepted: seq<bool>) returns (written: seq<Message>)
    requires |accepted| == |queue|
    ensures |written| <= |queue| && written == queue[..|written|]
    ensures forall k :: 0 <= k < |written| ==> accepted[k]
    ensures |written| < |queue| ==> !accepted[|written|]
  {
    written := [];
    var i := 0;
    while i < |queue|
      invariant i <= |queue| && written == queue[..i]
      invariant forall k :: 0 <= k < i ==> accepted[k]
    {
      if !accepted[i] {
        break;
      }
      written := written + [queue[i]];
      i := i + 1;
    }
  }

  /** Two clients, Alice and Bob, connect; both are registered before either sends a name,
      then Alice says hi. Each of them receives both join notices and Alice's message, in the
      order the broadcasts took the lock. */
  method AliceAndBob() returns (alice: seq<Message>, bob: seq<Message>)
    ensures alice == [JoinNotice("Alice"), JoinNotice("Bob"), Text("Alice: hi")]
    ensures bob == alice
  {
    var reg := new Registry();
    var a := reg.Register();
    var b := reg.Register();
    reg.Broadcast(JoinNotice("Alice"));
    reg.Broadcast(JoinNotice("Bob"));
    reg.Broadcast(Text("Alice: hi"));
    alice, bob := reg.clients[0].outbox, reg.clients[1].outbox;
  }

  /** A client that is pushed after another session's join broadcast never sees that notice. */
  method LateJoiner() returns (alice: seq<Message>, bob: seq<Message>)
    ensures alice == [JoinNotice("Alice"), JoinNotice("Bob")]
    ensures bob == [JoinNotice("Bob")]
  {
    var reg := new Registry();
    var a := reg.Register();
    reg.Broadcast(JoinNotice("Alice"));
    var b := reg.Register();
    reg.Broadcast(JoinNotice("Bob"));
    alice, bob := reg.clients[0].outbox, reg.clients[1].outbox;
  }

  // `same_channel` as the source writes it. The retain closure receives a reference to a slot
  // of the registry's vector, and the session passes a reference to its own local `tx`; the
  // two always live at different addresses, so `std::ptr::eq` never holds.

  /** Where a sender value lives: slot `index` of the registry's vector, or the local `tx` of
      session `session`. */
  datatype Place = Slot(index: nat) | Local(session: nat)

  /** `same_channel` as written: address equality. */
  predicate SameChannelAsWritten(a: Place, b: Place)
  {
    a == b
  }

  /** The source's `retain(|client| !same_channel(client, &tx))` over slots `from`, `from + 1`, ... */
  function RetainAsWritten(hs: seq<Handle>, session: nat, from: nat): seq<Handle>
  {
    if hs == [] then []
    else (if SameChannelAsWritten(Slot(from), Local(session)) then [] else [hs[0]])
         + RetainAsWritten(hs[1..], session, from + 1)
  }

  /** As written, deregistration never removes anything. */
  lemma {:induction false} RetainAsWrittenKeepsAll(hs: seq<Handle>, session: nat, from: nat)
    ensures RetainAsWritten(hs, session, from) == hs
    decreases |hs|
  {
    if hs != [] {
      RetainAsWrittenKeepsAll(hs[1..], session, from + 1);
      assert hs == [hs[0]] + hs[1..];
    }
  }

  /** As written, a lone session that hits a read error keeps its handle and sends its own exit
      notice to itself, where removal by identity leaves nobody to notify. */
  lemma LeaverNotifiedAsWritten()
    ensures Delivered(RetainAsWritten([Handle(0, true, [])], 0, 0), ExitNotice("Alice"))
            == [Handle(0, true, [ExitNotice("Alice")])]
    ensures Delivered(Removed([Handle(0, true, [])], 0), ExitNotice("Alice")) == []
  {
    var lone := [Handle(0, true, [])];
    RetainAsWrittenKeepsAll(lone, 0, 0);
    assert lone[1..] == [];
    var d := Delivered(lone, ExitNotice("Alice"));
    assert |d| == 1 && d[0] == Handle(0, true, [ExitNotice("Alice")]);
  }
}
