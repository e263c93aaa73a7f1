/** The Socket.io handlers of the chat server. Each handler runs as one
    atomic step on the shared state: the `onlineUsers` map, the message
    table, and the outbox of events emitted so far (`io.to(socket).emit`
    appends one emission). */
module Server {
  import opened Common
  import opened Messages
  import opened Presence

  /** A call-signaling payload (offer, answer, ICE candidate): forwarded as
      it is, never inspected. */
  type Blob = string

  /** The incoming `message` event: `{ senderId, receiverId, text, ... }`.
      The other fields the client sends are overwritten by the server. */
  datatype ChatRequest = ChatRequest(senderId: UserId, receiverId: UserId, text: string)

  /** The pushed `message` payload: the incoming fields plus the saved
      record's `createdAt` and `_id`. */
  datatype ChatPayload = ChatPayload(senderId: UserId, receiverId: UserId, text: string, createdAt: int, id: MessageId)

  datatype Event =
    | MessageEvent(payload: ChatPayload)
    | DeleteMessageEvent(id: MessageId)
    | UndoMessageEvent
    | CallMade(from: Option<UserId>, offer: Blob)
    | AnswerMade(from: Option<UserId>, answer: Option<Blob>)
    | IceCandidateEvent(from: Option<UserId>, candidate: Blob)

  datatype Emission = Emission(to: SocketId, event: Event)

  /** `const s = onlineUsers.get(u); if (s) io.to(s).emit(ev)`. A missing
      user id (the reverse lookup found nobody) reaches nobody. */
  function DeliverTo(e: seq<Binding>, u: Option<UserId>, ev: Event): (r: seq<Emission>)
    ensures |r| <= 1
    ensures r != [] <==> u.Some? && (exists j :: 0 <= j < |e| && e[j].user == u.value)
    ensures forall x :: x in r ==> x.event == ev && Binding(u.value, x.to) in e
  {
    if u.None? then []
    else
      match Get(e, u.value)
      case None => []
      case Some(s) => [Emission(s, ev)]
  }

  /** The payload pushed for a freshly saved record. */
  function PayloadOf(msg: ChatRequest, saved: Message): (r: ChatPayload)
    ensures r.senderId == msg.senderId && r.receiverId == msg.receiverId && r.text == msg.text
    ensures r.createdAt == saved.createdAt && r.id == saved.id
  {
    ChatPayload(msg.senderId, msg.receiverId, msg.text, saved.createdAt, saved.id)
  }

  class ChatServer {
    var online: seq<Binding>
    var outbox: seq<Emission>
    const table: MessageTable

    ghost predicate Valid()
      reads this, table
    {
      KeysDistinct(online) && table.Valid()
    }

    constructor (table: MessageTable)
      requires table.Valid()
      ensures Valid() && this.table == table
      ensures online == [] && outbox == []
    {
      this.table := table;
      online := [];
      outbox := [];
    }

    /** `identify`: `onlineUsers.set(userId, socket.id)`. */
    method Identify(socket: SocketId, userId: UserId)
      requires Valid()
      modifies this`online
      ensures Valid()
      ensures online == Set(old(online), userId, socket)
    {
      online := Set(online, userId, socket);
    }

    /** `message`: save one record, then push it to the receiver and after
        that to the sender, each only if online. */
    method OnMessage(msg: ChatRequest, now: int)
      requires Valid()
      modifies this`outbox, table
      ensures Valid() && online == old(online)
      ensures table.msgs == old(table.msgs) +
        [Message(old(table.nextId), msg.senderId, msg.receiverId, msg.text, now, Sent)]
      ensures outbox == old(outbox)
        + DeliverTo(online, Some(msg.receiverId),
            MessageEvent(ChatPayload(msg.senderId, msg.receiverId, msg.text, now, old(table.nextId))))
        + DeliverTo(online, Some(msg.senderId),
            MessageEvent(ChatPayload(msg.senderId, msg.receiverId, msg.text, now, old(table.nextId))))
    {
      var saved := table.Create(msg.senderId, msg.receiverId, msg.text, now);
      var ev := MessageEvent(PayloadOf(msg, saved));
      var receiverSocketId := Get(online, msg.receiverId);
      if receiverSocketId.Some? {
        outbox := outbox + [Emission(receiverSocketId.value, ev)];
      }
      var senderSocketId := Get(online, msg.senderId);
      if senderSocketId.Some? {
        outbox := outbox + [Emission(senderSocketId.value, ev)];
      }
    }

    /** `delete-message`: mark the record deleted whoever asks, then notify
        the receiver and the requesting socket's user. */
    method OnDeleteMessage(socket: SocketId, id: MessageId, receiverId: UserId)
      requires Valid()
      modifies this`outbox, table`msgs
      ensures Valid() && online == old(online)
      ensures FindById(old(table.msgs), id).None? ==> table.msgs == old(table.msgs)
      ensures FindById(old(table.msgs), id).Some? ==>
        table.msgs == WithStatus(old(table.msgs), FindById(old(table.msgs), id).value, Deleted)
      ensures outbox == old(outbox)
        + DeliverTo(online, Some(receiverId), DeleteMessageEvent(id))
        + DeliverTo(online, UserOf(online, socket), DeleteMessageEvent(id))
    {
      table.FindByIdAndUpdate(id, Deleted);
      var receiverSocketId := Get(online, receiverId);
      if receiverSocketId.Some? {
        outbox := outbox + [Emission(receiverSocketId.value, DeleteMessageEvent(id))];
      }
      var senderSocketId := SenderSocket(online, socket);
      if senderSocketId.Some? {
        outbox := outbox + [Emission(senderSocketId.value, DeleteMessageEvent(id))];
      }
    }

    /** `undo-message`: only notifications; the table is not touched. */
    method OnUndoMessage(socket: SocketId, receiverId: UserId)
      requires Valid()
      modifies this`outbox
      ensures Valid() && online == old(online) && table.msgs == old(table.msgs)
      ensures outbox == old(outbox)
        + DeliverTo(online, Some(receiverId), UndoMessageEvent)
        + DeliverTo(online, UserOf(online, socket), UndoMessageEvent)
    {
      var receiverSocketId := Get(online, receiverId);
      if receiverSocketId.Some? {
        outbox := outbox + [Emission(receiverSocketId.value, UndoMessageEvent)];
      }
      var senderSocketId := SenderSocket(online, socket);
      if senderSocketId.Some? {
        outbox := outbox + [Emission(senderSocketId.value, UndoMessageEvent)];
      }
    }

    /** `call-user`: forward the offer to `to`, if online. */
    method OnCallUser(socket: SocketId, to: UserId, offer: Blob)
      requires Valid()
      modifies this`outbox
      ensures Valid() && online == old(online) && table.msgs == old(table.msgs)
      ensures outbox == old(outbox) + DeliverTo(online, Some(to), CallMade(UserOf(online, socket), offer))
    {
      var receiverSocketId := Get(online, to);
      if receiverSocketId.Some? {
        outbox := outbox + [Emission(receiverSocketId.value, CallMade(UserOf(online, socket), offer))];
      }
    }

    /** `answer-call`: forward the answer to `to`, if online; a `null`
        answer (a declined call) is forwarded like any other. */
    method OnAnswerCall(socket: SocketId, to: UserId, answer: Option<Blob>)
      requires Valid()
      modifies this`outbox
      ensures Valid() && online == old(online) && table.msgs == old(table.msgs)
      ensures outbox == old(outbox) + DeliverTo(online, Some(to), AnswerMade(UserOf(online, socket), answer))
    {
      var callerSocketId := Get(online, to);
      if callerSocketId.Some? {
        outbox := outbox + [Emission(callerSocketId.value, AnswerMade(UserOf(online, socket), answer))];
      }
    }

    /** `ice-candidate`: forward the candidate to `to`, if online. */
    method OnIceCandidate(socket: SocketId, to: UserId, candidate: Blob)
      requires Valid()
      modifies this`outbox
      ensures Valid() && online == old(online) && table.msgs == old(table.msgs)
      ensures outbox == old(outbox) + DeliverTo(online, Some(to), IceCandidateEvent(UserOf(online, socket), candidate))
    {
      var peerSocketId := Get(online, to);
      if peerSocketId.Some? {
        outbox := outbox + [Emission(peerSocketId.value, IceCandidateEvent(UserOf(online, socket), candidate))];
      }
    }

    /** `disconnect`: walk the map in order, delete the first binding to
        this socket and stop. */
    method Disconnect(socket: SocketId)
      requires Valid()
      modifies this`online
      ensures Valid()
      ensures online == RemoveFirstSocket(old(online), socket)
    {
      var i := 0;
      while i < |online|
        invariant 0 <= i <= |online|
        invariant online == old(online)
        invariant forall j :: 0 <= j < i ==> online[j].socket != socket
      {
        if online[i].socket == socket {
          assert SocketIndex(online, socket) == Some(i);
          online := online[..i] + online[i + 1..];
          RemoveFirstSocketShape(old(online), socket);
          return;
        }
        i := i + 1;
      }
    }
  }

  /** The map after A and then B identify, and after B's socket closes. */
  lemma TwoUsersBindings()
    ensures Set(Set([], "A", "sA"), "B", "sB") == [Binding("A", "sA"), Binding("B", "sB")]
    ensures Get([Binding("A", "sA"), Binding("B", "sB")], "B") == Some("sB")
    ensures Get([Binding("A", "sA"), Binding("B", "sB")], "A") == Some("sA")
    ensures RemoveFirstSocket([Binding("A", "sA"), Binding("B", "sB")], "sB") == [Binding("A", "sA")]
    ensures Get([Binding("A", "sA")], "B").None?
  {
    assert KeyIndex([Binding("A", "sA")], "B").None?;
    assert SocketIndex([Binding("A", "sA"), Binding("B", "sB")], "sB") == Some(1);
  }

  /** Both parties online, A sends M1: B's socket and then A's socket get
      the push. B then disconnects; the stored record is still in the
      history that B fetches when it comes back. */
  method SendWhileOnlineScenario() returns (pushed: seq<Emission>, history: seq<Message>, bOnline: bool)
    ensures pushed == [
      Emission("sB", MessageEvent(ChatPayload("A", "B", "M1", 5, 0))),
      Emission("sA", MessageEvent(ChatPayload("A", "B", "M1", 5, 0)))]
    ensures history == [Message(0, "A", "B", "M1", 5, Sent)]
    ensures !bOnline
  {
    TwoUsersBindings();
    var table := new MessageTable();
    var server := new ChatServer(table);
    server.Identify("sA", "A");
    server.Identify("sB", "B");
    assert server.online == [Binding("A", "sA"), Binding("B", "sB")];
    server.OnMessage(ChatRequest("A", "B", "M1"), 5);
    assert server.outbox == [
      Emission("sB", MessageEvent(ChatPayload("A", "B", "M1", 5, 0))),
      Emission("sA", MessageEvent(ChatPayload("A", "B", "M1", 5, 0)))];
    pushed := server.outbox;
    server.Disconnect("sB");
    assert server.online == [Binding("A", "sA")];
    bOnline := Get(server.online, "B").Some?;
    var m1 := Message(0, "A", "B", "M1", 5, Sent);
    assert Visible([m1], "B", "A") == [m1];
    history := History(table.msgs, "B", "A");
  }

  /** The map through a page reload of `a`: `b` on `sb`, then `a` on `s1`
      and again on `s2`; the second identify replaces `a`'s binding in
      place. */
  lemma ReloadBindings(a: UserId, b: UserId, sb: SocketId, s1: SocketId, s2: SocketId)
    requires a != b
    ensures Set(Set(Set([], b, sb), a, s1), a, s2) == [Binding(b, sb), Binding(a, s2)]
  {
    assert Set([], b, sb) == [Binding(b, sb)];
    assert KeyIndex([Binding(b, sb)], a).None?;
    assert Set([Binding(b, sb)], a, s1) == [Binding(b, sb), Binding(a, s1)];
    assert KeyIndex([Binding(b, sb), Binding(a, s1)], a) == Some(1);
  }

  /** After the reload the late disconnect of `s1` finds no binding, `a` is
      on `s2`, and `sb` answers `b` in the reverse lookup. */
  lemma ReloadLookups(a: UserId, b: UserId, sb: SocketId, s1: SocketId, s2: SocketId, offer: Blob)
    requires a != b && s1 != s2 && s1 != sb
    ensures RemoveFirstSocket([Binding(b, sb), Binding(a, s2)], s1) == [Binding(b, sb), Binding(a, s2)]
    ensures Get([Binding(b, sb), Binding(a, s2)], a) == Some(s2)
    ensures UserOf([Binding(b, sb), Binding(a, s2)], sb) == Some(b)
    ensures DeliverTo([Binding(b, sb), Binding(a, s2)], Some(a), CallMade(Some(b), offer))
      == [Emission(s2, CallMade(Some(b), offer))]
  {
    assert SocketIndex([Binding(b, sb), Binding(a, s2)], s1).None?;
    assert KeyIndex([Binding(b, sb), Binding(a, s2)], a) == Some(1);
    assert SocketIndex([Binding(b, sb), Binding(a, s2)], sb) == Some(0);
  }

  /** A user `a` reloads the page: it identifies on a new socket `s2`, then
      the disconnect of its old socket `s1` arrives. The user stays online
      on `s2`, and a call offer from `b` reaches `s2`. */
  method ReloadScenario(a: UserId, b: UserId, sb: SocketId, s1: SocketId, s2: SocketId, offer: Blob)
    returns (current: Option<SocketId>, pushed: seq<Emission>)
    requires a != b && s1 != s2 && s1 != sb
    ensures current == Some(s2)
    ensures pushed == [Emission(s2, CallMade(Some(b), offer))]
  {
    var table := new MessageTable();
    var server := new ChatServer(table);
    server.Identify(sb, b);
    server.Identify(s1, a);
    server.Identify(s2, a);
    assert server.online == [Binding(b, sb), Binding(a, s2)] by {
      ReloadBindings(a, b, sb, s1, s2);
    }
    server.Disconnect(s1);
    assert server.online == [Binding(b, sb), Binding(a, s2)] by {
      ReloadLookups(a, b, sb, s1, s2, offer);
    }
    current := Get(server.online, a);
    ReloadLookups(a, b, sb, s1, s2, offer);
    server.OnCallUser(sb, a, offer);
    pushed := server.outbox;
  }
}
