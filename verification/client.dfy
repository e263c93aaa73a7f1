/** The browser client's decisions: which fetched message is marked as the
    one that can be undone, which buttons a message gets, which pushed
    messages belong to the open conversation, when the compose box sends
    anything, and how a call answer is handled. */
module Client {
  import opened Common
  import opened Messages
  import opened Server

  // ---------------------------------------------------------------------
  // fetchMessages: mark at most one message `isLast`
  // ---------------------------------------------------------------------

  /** The test inside the marking loop: my own message, still `sent`. */
  predicate OwnSent(m: Message, me: UserId) {
    m.sender == me && m.status == Sent
  }

  /** The index the marking loop ends with: the last own `sent` message in
      list order, or -1. */
  function LastOwnSent(msgs: seq<Message>, me: UserId): (r: int)
    ensures -1 <= r < |msgs|
    ensures r == -1 <==> forall j :: 0 <= j < |msgs| ==> !OwnSent(msgs[j], me)
    ensures r >= 0 ==> OwnSent(msgs[r], me)
    ensures r >= 0 ==> forall j :: r < j < |msgs| ==> !OwnSent(msgs[j], me)
  {
    if msgs == [] then -1
    else if OwnSent(msgs[|msgs| - 1], me) then |msgs| - 1
    else
      var r := LastOwnSent(msgs[..|msgs| - 1], me);
      assert forall j :: 0 <= j < |msgs| - 1 ==> msgs[..|msgs| - 1][j] == msgs[j];
      r
  }

  /** `let lastIdx = -1; data.messages.forEach((msg, idx) => { if (…) lastIdx = idx; })`. */
  method FindLastIdx(msgs: seq<Message>, me: UserId) returns (lastIdx: int)
    ensures lastIdx == LastOwnSent(msgs, me)
  {
    lastIdx := -1;
    var idx := 0;
    while idx < |msgs|
      invariant 0 <= idx <= |msgs|
      invariant lastIdx == LastOwnSent(msgs[..idx], me)
    {
      assert msgs[..idx + 1][..idx] == msgs[..idx];
      if OwnSent(msgs[idx], me) {
        lastIdx := idx;
      }
      idx := idx + 1;
    }
    assert msgs[..idx] == msgs;
  }

  /** A fetched message as handed to `renderMessage`. */
  datatype Shown = Shown(msg: Message, isLast: bool, isMe: bool)

  /** The second `forEach`: `isLast: idx === lastIdx && own && sent` and
      `isMe: own`. */
  function Mark(msgs: seq<Message>, me: UserId, lastIdx: int): (r: seq<Shown>)
    ensures |r| == |msgs|
    ensures forall i :: 0 <= i < |msgs| ==> r[i].msg == msgs[i] && (r[i].isMe <==> msgs[i].sender == me)
    ensures forall i :: 0 <= i < |msgs| ==> (r[i].isLast <==> i == lastIdx && OwnSent(msgs[i], me))
    ensures forall i, j :: 0 <= i < |msgs| && 0 <= j < |msgs| && r[i].isLast && r[j].isLast ==> i == j
  {
    seq(|msgs|, i requires 0 <= i < |msgs| =>
      Shown(msgs[i], i == lastIdx && OwnSent(msgs[i], me), msgs[i].sender == me))
  }

  /** At most one message is marked, and the marked one is exactly the last
      own `sent` message in the list; nothing is marked when there is none. */
  lemma MarkedIsLastOwnSent(msgs: seq<Message>, me: UserId)
    ensures var shown := Mark(msgs, me, LastOwnSent(msgs, me));
      && |shown| == |msgs|
      && (forall i, j :: 0 <= i < |msgs| && 0 <= j < |msgs| && shown[i].isLast && shown[j].isLast ==> i == j)
      && (forall i :: 0 <= i < |msgs| ==>
            (shown[i].isLast <==> OwnSent(msgs[i], me) && forall j :: i < j < |msgs| ==> !OwnSent(msgs[j], me)))
  {
    var k := LastOwnSent(msgs, me);
    var shown := Mark(msgs, me, k);
    forall i | 0 <= i < |msgs|
      ensures shown[i].isLast <==> OwnSent(msgs[i], me) && forall j :: i < j < |msgs| ==> !OwnSent(msgs[j], me)
    {
      if OwnSent(msgs[i], me) && (forall j :: i < j < |msgs| ==> !OwnSent(msgs[j], me)) {
        assert k != -1;
      }
    }
  }

  // ---------------------------------------------------------------------
  // renderMessage: placeholder and buttons
  // ---------------------------------------------------------------------

  datatype Rendering = Placeholder | Body(deleteButton: bool, undoButton: bool)

  /** The branches of `renderMessage(msg, isMe)`. `deleted` is
      `msg.status === 'deleted'` (false for a pushed message, which carries
      no status). */
  function Render(deleted: bool, isMe: bool, isLast: bool): (r: Rendering)
    ensures r.Placeholder? <==> deleted
    ensures r.Body? ==> (r.deleteButton <==> isMe)
    ensures r.Body? ==> (r.undoButton <==> isMe && isLast)
    ensures r.Body? && r.undoButton ==> r.deleteButton
  {
    if deleted then Placeholder
    else Body(isMe, isMe && isLast)
  }

  /** In a fetched conversation the undo button appears on at most one
      message: the last own `sent` one. A deleted message shows only the
      placeholder. */
  lemma UndoButtonOnlyOnLastOwnSent(msgs: seq<Message>, me: UserId, i: nat)
    requires i < |msgs|
    ensures var s := Mark(msgs, me, LastOwnSent(msgs, me))[i];
      var r := Render(s.msg.status == Deleted, s.isMe, s.isLast);
      && (msgs[i].status == Deleted ==> r == Placeholder)
      && (r.Body? && r.undoButton <==> i == LastOwnSent(msgs, me))
  {
    MarkedIsLastOwnSent(msgs, me);
  }

  // ---------------------------------------------------------------------
  // The client's mark and the server's undo target agree
  // ---------------------------------------------------------------------

  /** The history the client fetches for `me` and `contact` has a marked
      message exactly when the server has something to undo for that
      receiver, and the marked message is one the server's query matches,
      with the same (greatest) `createdAt` as the server's target. */
  lemma MarkAgreesWithUndoTarget(table: seq<Message>, me: UserId, contact: UserId)
    ensures var h := History(table, me, contact);
      var k := LastOwnSent(h, me);
      && (k == -1 <==> UndoTarget(table, me, contact).None?)
      && (k >= 0 ==> h[k] in table && Undoable(h[k], me, contact))
      && (k >= 0 ==> h[k].createdAt == table[UndoTarget(table, me, contact).value].createdAt)
  {
    var h := History(table, me, contact);
    forall m
      ensures m in h && OwnSent(m, me) <==> m in table && Undoable(m, me, contact)
    {
      OwnSentInHistory(table, me, contact, m);
    }
    LastOwnSentIsLatestUndoable(table, me, contact, h);
  }

  /** The core of the agreement, for any time-sorted list whose own `sent`
      messages are exactly the table's undoable ones. */
  lemma LastOwnSentIsLatestUndoable(table: seq<Message>, me: UserId, contact: UserId, h: seq<Message>)
    requires SortedByTime(h)
    requires forall m :: m in h && OwnSent(m, me) <==> m in table && Undoable(m, me, contact)
    ensures var k := LastOwnSent(h, me);
      && (k == -1 <==> UndoTarget(table, me, contact).None?)
      && (k >= 0 ==> h[k] in table && Undoable(h[k], me, contact))
      && (k >= 0 ==> h[k].createdAt == table[UndoTarget(table, me, contact).value].createdAt)
  {
    var k := LastOwnSent(h, me);
    var t := UndoTarget(table, me, contact);
    if k >= 0 {
      assert h[k] in h;
      var q :| 0 <= q < |table| && table[q] == h[k];
      assert table[q].createdAt <= table[t.value].createdAt;
      assert table[t.value] in table;
      var p :| 0 <= p < |h| && h[p] == table[t.value];
      assert p <= k;
      assert h[p].createdAt <= h[k].createdAt;
    } else {
      forall j | 0 <= j < |table|
        ensures !Undoable(table[j], me, contact)
      {
        assert table[j] in table;
      }
    }
  }

  /** The messages of the history that the marking loop looks for are
      exactly the messages the server's undo query matches. */
  lemma OwnSentInHistory(table: seq<Message>, me: UserId, contact: UserId, m: Message)
    ensures m in History(table, me, contact) && OwnSent(m, me) <==> m in table && Undoable(m, me, contact)
  {
    HistoryMembers(table, me, contact, m);
  }

  // ---------------------------------------------------------------------
  // socket.on('message'): only the open conversation is rendered
  // ---------------------------------------------------------------------

  /** The listener's test for a pushed message. */
  function ShowsLive(p: ChatPayload, me: UserId, contact: UserId): (b: bool)
    ensures b <==> Between(Message(p.id, p.senderId, p.receiverId, p.text, p.createdAt, Sent), me, contact)
  {
    (p.senderId == me && p.receiverId == contact) || (p.senderId == contact && p.receiverId == me)
  }

  /** A pushed message is rendered live exactly when the record the server
      saved for it is in the history of the open conversation. */
  lemma LiveFilterMatchesHistory(msgs: seq<Message>, req: ChatRequest, now: int, id: MessageId, me: UserId, contact: UserId)
    ensures var saved := Message(id, req.senderId, req.receiverId, req.text, now, Sent);
      ShowsLive(PayloadOf(req, saved), me, contact) <==> saved in History(msgs + [saved], me, contact)
  {
    var saved := Message(id, req.senderId, req.receiverId, req.text, now, Sent);
    var h := History(msgs + [saved], me, contact);
    assert saved in msgs + [saved];
    assert saved in h <==> saved in multiset(h);
  }

  // ---------------------------------------------------------------------
  // The compose box: whitespace-only input sends nothing
  // ---------------------------------------------------------------------

  /** The characters `String.prototype.trim` removes: white space and line
      terminators. */
  function IsSpace(c: char): (b: bool)
    ensures c < '\U{0080}' ==> (b <==> c == ' ' || '\t' <= c <= '\r')
    ensures b ==> c <= '\U{FEFF}'
  {
    || c == '\t' || c == '\n' || c == '\U{000B}' || c == '\U{000C}' || c == '\r' || c == ' '
    || c == '\U{00A0}' || c == '\U{1680}' || ('\U{2000}' <= c <= '\U{200A}')
    || c == '\U{2028}' || c == '\U{2029}' || c == '\U{202F}' || c == '\U{205F}'
    || c == '\U{3000}' || c == '\U{FEFF}'
  }

  /** Number of leading white-space characters. */
  function LeadingSpace(s: string): (n: nat)
    ensures n <= |s|
    ensures forall i :: 0 <= i < n ==> IsSpace(s[i])
    ensures n < |s| ==> !IsSpace(s[n])
  {
    if s == [] || !IsSpace(s[0]) then 0 else 1 + LeadingSpace(s[1..])
  }

  /** Number of trailing white-space characters. */
  function TrailingSpace(s: string): (n: nat)
    ensures n <= |s|
    ensures forall i :: |s| - n <= i < |s| ==> IsSpace(s[i])
    ensures n < |s| ==> !IsSpace(s[|s| - n - 1])
  {
    if s == [] || !IsSpace(s[|s| - 1]) then 0
    else
      var n := TrailingSpace(s[..|s| - 1]);
      assert forall i :: 0 <= i < |s| - 1 ==> s[..|s| - 1][i] == s[i];
      1 + n
  }

  /** `messageInput.value.trim()`: the input between its leading and its
      trailing white space. */
  function Trim(s: string): (t: string)
    ensures t == [] <==> forall i :: 0 <= i < |s| ==> IsSpace(s[i])
    ensures t != [] ==> !IsSpace(t[0]) && !IsSpace(t[|t| - 1])
    ensures t != [] ==> s == s[..LeadingSpace(s)] + t + s[|s| - TrailingSpace(s)..]
  {
    var lead := LeadingSpace(s);
    if lead == |s| then []
    else
      var trail := TrailingSpace(s);
      assert !IsSpace(s[lead]);
      assert lead < |s| - trail;
      var t := s[lead..|s| - trail];
      assert t[0] == s[lead] && t[|t| - 1] == s[|s| - trail - 1];
      assert s == s[..lead] + t + s[|s| - trail..];
      t
  }

  /** The submit handler's guard: `const text = …trim(); if (!text) return;`.
      `None` means nothing is sent. */
  function ComposeText(input: string): (r: Option<string>)
    ensures r.None? <==> forall i :: 0 <= i < |input| ==> IsSpace(input[i])
    ensures r.Some? ==> r.value != [] && !IsSpace(r.value[0]) && !IsSpace(r.value[|r.value| - 1])
    ensures r.Some? ==> r.value == Trim(input)
  {
    var text := Trim(input);
    if text == [] then None else Some(text)
  }

  /** The submit handler: trim the input and stop when nothing is left,
      otherwise send what is left. */
  method Submit(server: ChatServer, me: UserId, contact: UserId, input: string, postedAt: int, relayedAt: int)
    requires server.Valid() && me != "" && contact != ""
    modifies server`outbox, server.table
    ensures server.Valid() && server.online == old(server.online)
    ensures ComposeText(input).None? ==>
      server.table.msgs == old(server.table.msgs) && server.outbox == old(server.outbox)
    ensures ComposeText(input).Some? ==>
      server.table.msgs == old(server.table.msgs) +
        [Message(old(server.table.nextId), me, contact, ComposeText(input).value, postedAt, Sent),
         Message(old(server.table.nextId) + 1, me, contact, ComposeText(input).value, relayedAt, Sent)]
    ensures ComposeText(input).Some? ==>
      var ev := MessageEvent(ChatPayload(me, contact, ComposeText(input).value, relayedAt, old(server.table.nextId) + 1));
      server.outbox == old(server.outbox)
        + DeliverTo(old(server.online), Some(contact), ev) + DeliverTo(old(server.online), Some(me), ev)
  {
    var text := ComposeText(input);
    if text.Some? {
      Send(server, me, contact, text.value, postedAt, relayedAt);
    }
  }

  /** POST the message (the REST create) and, when the reply carries the
      saved record, emit `message` on the socket, whose server handler
      stores a record of its own. `me` and `contact` are the ids of the
      signed-in user and of the open contact, never empty. */
  method Send(server: ChatServer, me: UserId, contact: UserId, text: string, postedAt: int, relayedAt: int)
    requires server.Valid() && me != "" && contact != "" && text != ""
    modifies server`outbox, server.table
    ensures server.Valid() && server.online == old(server.online)
    ensures server.table.msgs == old(server.table.msgs) +
      [Message(old(server.table.nextId), me, contact, text, postedAt, Sent),
       Message(old(server.table.nextId) + 1, me, contact, text, relayedAt, Sent)]
    ensures var ev := MessageEvent(ChatPayload(me, contact, text, relayedAt, old(server.table.nextId) + 1));
      server.outbox == old(server.outbox)
        + DeliverTo(old(server.online), Some(contact), ev) + DeliverTo(old(server.online), Some(me), ev)
  {
    var table := server.table;
    ghost var n := table.nextId;
    ghost var before := table.msgs;
    var data := SendMessage(table, Some(me), Some(contact), Some(text), postedAt);
    assert server.Valid();
    server.OnMessage(ChatRequest(me, contact, text), relayedAt);
    assert table.msgs == before + [data.value] + [Message(n + 1, me, contact, text, relayedAt, Sent)];
  }

  /** Both records one submit stores are in the conversation's history, so
      after a reload the text is listed twice. */
  lemma SubmittedTextListedTwice(msgs: seq<Message>, me: UserId, contact: UserId, text: string, n: MessageId, postedAt: int, relayedAt: int)
    ensures var posted := Message(n, me, contact, text, postedAt, Sent);
      var relayed := Message(n + 1, me, contact, text, relayedAt, Sent);
      && posted != relayed
      && posted in History(msgs + [posted, relayed], me, contact)
      && relayed in History(msgs + [posted, relayed], me, contact)
  {
    var posted := Message(n, me, contact, text, postedAt, Sent);
    var relayed := Message(n + 1, me, contact, text, relayedAt, Sent);
    HistoryMembers(msgs + [posted, relayed], me, contact, posted);
    HistoryMembers(msgs + [posted, relayed], me, contact, relayed);
  }

  // ---------------------------------------------------------------------
  // Call answers: declining sends `answer: null`, which ends the call
  // ---------------------------------------------------------------------

  /** What the decline button sends as the answer. */
  function DeclineAnswer(): (r: Option<Blob>)
    ensures OnAnswerMade(r) == EndCall
  {
    None
  }

  datatype CallReaction = EndCall | ApplyAnswer(answer: Blob)

  /** `socket.on('answer-made')`: a falsy answer ends the call, any other
      answer is applied to the peer connection. */
  function OnAnswerMade(answer: Option<Blob>): (r: CallReaction)
    ensures r == EndCall <==> answer.None?
    ensures r.ApplyAnswer? ==> answer == Some(r.answer)
  {
    if answer.None? then EndCall else ApplyAnswer(answer.value)
  }

  /** A decline relayed by the server reaches the caller if the caller is
      online, and the caller then ends the call. */
  lemma DeclineEndsCall(online: seq<Presence.Binding>, caller: UserId, from: Option<UserId>)
    ensures var out := DeliverTo(online, Some(caller), AnswerMade(from, DeclineAnswer()));
      && (out != [] <==> Presence.Get(online, caller).Some?)
      && forall x :: x in out ==> x.event.AnswerMade? && OnAnswerMade(x.event.answer) == EndCall
  {
  }
}
