/** The message store and the REST message controller: sending, the
    conversation history query, soft delete, archiving a conversation and the
    two-minute undo. The Mongo collection is an in-memory table; each
    controller's decision is a function on the table's contents, and the
    methods at the end apply that decision to the table. */
module Messages {
  import opened Common

  datatype Status = Sent | Deleted | Archived

  /** The store-assigned `_id`. */
  type MessageId = nat

  /** A stored message. `createdAt` is the store's timestamp in integer
      milliseconds; only `status` ever changes after creation. */
  datatype Message = Message(
    id: MessageId,
    sender: UserId,
    receiver: UserId,
    text: string,
    createdAt: int,
    status: Status)

  /** The undo window: the controller refuses when
      `(now - createdAt) / 1000 > 120`, i.e. more than 120000 ms. */
  const UndoWindowMs: int := 120000

  /** The `$or` of the history and archive queries: the message goes from
      one of the two users to the other, in either direction. */
  predicate Between(m: Message, u1: UserId, u2: UserId) {
    (m.sender == u1 && m.receiver == u2) || (m.sender == u2 && m.receiver == u1)
  }

  predicate IdsDistinct(msgs: seq<Message>) {
    forall i, j :: 0 <= i < j < |msgs| ==> msgs[i].id != msgs[j].id
  }

  /** `message.status = st` on the message at index `i`; nothing else moves. */
  function WithStatus(msgs: seq<Message>, i: nat, st: Status): (r: seq<Message>)
    requires i < |msgs|
    ensures |r| == |msgs| && r[i].status == st
    ensures r[i] == Message(msgs[i].id, msgs[i].sender, msgs[i].receiver, msgs[i].text, msgs[i].createdAt, st)
    ensures forall j :: 0 <= j < |msgs| && j != i ==> r[j] == msgs[j]
  {
    msgs[i := msgs[i].(status := st)]
  }

  /** `Message.findById(id)`: the position of the message with that id.
      Each collection in this model has its own first-match search written
      out directly (`FindById`, `Presence.KeyIndex`, `Presence.SocketIndex`,
      `Accounts.FindByEmail`, `Accounts.FindProfile`): one search generic
      over a predicate argument makes the proofs that use it much costlier
      for the solver. */
  function FindById(msgs: seq<Message>, id: MessageId): (r: Option<nat>)
    ensures r.None? <==> forall j :: 0 <= j < |msgs| ==> msgs[j].id != id
    ensures r.Some? ==> r.value < |msgs| && msgs[r.value].id == id
  {
    if msgs == [] then None
    else if msgs[0].id == id then Some(0)
    else
      match FindById(msgs[1..], id)
      case None => None
      case Some(i) => Some(i + 1)
  }

  lemma FindByIdUnique(msgs: seq<Message>, id: MessageId, i: nat)
    requires IdsDistinct(msgs)
    requires i < |msgs| && msgs[i].id == id
    ensures FindById(msgs, id) == Some(i)
  {
  }

  // ---------------------------------------------------------------------
  // getMessages: both directions, not archived, by createdAt ascending
  // ---------------------------------------------------------------------

  /** The `find` filter of the history query. */
  function Visible(msgs: seq<Message>, u1: UserId, u2: UserId): (r: seq<Message>)
    ensures |r| <= |msgs|
    ensures forall m :: m in r <==> m in msgs && Between(m, u1, u2) && m.status != Archived
    ensures forall m :: multiset(r)[m] == if Between(m, u1, u2) && m.status != Archived then multiset(msgs)[m] else 0
  {
    if msgs == [] then []
    else
      var rest := Visible(msgs[1..], u1, u2);
      assert msgs == [msgs[0]] + msgs[1..];
      assert forall m :: m in msgs <==> m == msgs[0] || m in msgs[1..];
      if Between(msgs[0], u1, u2) && msgs[0].status != Archived then [msgs[0]] + rest else rest
  }

  predicate SortedByTime(s: seq<Message>) {
    forall i, j :: 0 <= i < j < |s| ==> s[i].createdAt <= s[j].createdAt
  }

  /** Insert `m` before the first later-or-equal element, so equal
      timestamps keep the order in which they were found. */
  function InsertByTime(m: Message, s: seq<Message>): (r: seq<Message>)
    requires SortedByTime(s)
    ensures SortedByTime(r)
    ensures multiset(r) == multiset(s) + multiset{m}
    ensures |r| == |s| + 1 && (r[0] == m || (s != [] && r[0] == s[0]))
  {
    if s == [] || m.createdAt <= s[0].createdAt then [m] + s
    else
      var tail := InsertByTime(m, s[1..]);
      assert s == [s[0]] + s[1..];
      [s[0]] + tail
  }

  /** `.sort({ createdAt: 1 })`. */
  function SortByTime(s: seq<Message>): (r: seq<Message>)
    ensures SortedByTime(r)
    ensures multiset(r) == multiset(s)
  {
    if s == [] then []
    else
      assert s == [s[0]] + s[1..];
      InsertByTime(s[0], SortByTime(s[1..]))
  }

  /** The `find(…).sort({ createdAt: 1 })` of the history query. */
  function History(msgs: seq<Message>, u1: UserId, u2: UserId): (r: seq<Message>)
    ensures SortedByTime(r)
    ensures multiset(r) == multiset(Visible(msgs, u1, u2))
  {
    SortByTime(Visible(msgs, u1, u2))
  }

  /** The history holds exactly the non-archived messages of the
      conversation. */
  lemma HistoryMembers(msgs: seq<Message>, u1: UserId, u2: UserId, m: Message)
    ensures m in History(msgs, u1, u2) <==> m in msgs && Between(m, u1, u2) && m.status != Archived
    ensures multiset(History(msgs, u1, u2))[m] == if Between(m, u1, u2) && m.status != Archived then multiset(msgs)[m] else 0
  {
    var h := History(msgs, u1, u2);
    assert m in h <==> m in multiset(h);
  }

  /** `getMessages`: 400 unless both users are given; otherwise every
      non-archived message of the conversation, oldest first. */
  function GetMessages(msgs: seq<Message>, user1: Option<string>, user2: Option<string>): (r: Result<seq<Message>>)
    ensures !(Present(user1) && Present(user2)) <==> r == Failure(Fault(400, "user1 and user2 are required"))
    ensures r.Failure? ==> r == Failure(Fault(400, "user1 and user2 are required"))
    ensures r.Success? ==> SortedByTime(r.value)
    ensures r.Success? ==> forall m :: m in r.value <==>
      m in msgs && Between(m, user1.value, user2.value) && m.status != Archived
    ensures r.Success? ==> multiset(r.value) == multiset(Visible(msgs, user1.value, user2.value))
  {
    if !Present(user1) || !Present(user2) then Failure(Fault(400, "user1 and user2 are required"))
    else
      var h := History(msgs, user1.value, user2.value);
      assert forall m :: m in h <==> m in multiset(h);
      Success(h)
  }

  lemma {:induction false} VisibleSymmetric(msgs: seq<Message>, u1: UserId, u2: UserId)
    ensures Visible(msgs, u1, u2) == Visible(msgs, u2, u1)
  {
    if msgs != [] {
      VisibleSymmetric(msgs[1..], u1, u2);
    }
  }

  /** The history does not depend on which of the two users asks. */
  lemma HistorySymmetric(msgs: seq<Message>, u1: UserId, u2: UserId)
    ensures History(msgs, u1, u2) == History(msgs, u2, u1)
  {
    VisibleSymmetric(msgs, u1, u2);
  }

  // ---------------------------------------------------------------------
  // deleteMessage: 404 / 403 / status := deleted
  // ---------------------------------------------------------------------

  const NotFoundMessage := Fault(404, "Message not found")
  const NotAuthorized := Fault(403, "Not authorized to delete this message")

  /** Which message `deleteMessage` marks, or why it refuses. The prior
      status is not looked at. */
  function DeleteDecision(msgs: seq<Message>, requester: UserId, id: MessageId): (r: Result<nat>)
    ensures r == Failure(NotFoundMessage) <==> forall j :: 0 <= j < |msgs| ==> msgs[j].id != id
    ensures r.Success? ==> r.value < |msgs| && msgs[r.value].id == id && msgs[r.value].sender == requester
    ensures r.Failure? ==> r == Failure(NotFoundMessage) || r == Failure(NotAuthorized)
    ensures IdsDistinct(msgs) ==> forall j :: 0 <= j < |msgs| && msgs[j].id == id ==>
      (msgs[j].sender == requester <==> r == Success(j))
  {
    match FindById(msgs, id)
    case None => Failure(NotFoundMessage)
    case Some(i) =>
      if msgs[i].sender != requester then Failure(NotAuthorized)
      else
        assert IdsDistinct(msgs) ==> forall j :: 0 <= j < |msgs| && msgs[j].id == id ==> j == i by {
          if IdsDistinct(msgs) {
            forall j | 0 <= j < |msgs| && msgs[j].id == id ensures j == i {
              FindByIdUnique(msgs, id, j);
            }
          }
        }
        Success(i)
  }

  /** A delete by the owner of an archived message brings it back into the
      history, as a deleted message: the controller does not check the
      prior status. */
  lemma DeleteResurfacesArchived(msgs: seq<Message>, requester: UserId, i: nat, other: UserId)
    requires IdsDistinct(msgs)
    requires i < |msgs| && msgs[i].sender == requester && msgs[i].status == Archived
    requires msgs[i].receiver == other
    ensures msgs[i] !in History(msgs, requester, other)
    ensures DeleteDecision(msgs, requester, msgs[i].id) == Success(i)
    ensures WithStatus(msgs, i, Deleted)[i] in History(WithStatus(msgs, i, Deleted), requester, other)
  {
    var h := History(msgs, requester, other);
    assert msgs[i] !in multiset(h);
    var after := WithStatus(msgs, i, Deleted);
    assert after[i] in Visible(after, requester, other);
    assert after[i] in multiset(History(after, requester, other));
  }

  // ---------------------------------------------------------------------
  // archiveChat: every message of the conversation becomes archived
  // ---------------------------------------------------------------------

  /** `updateMany` with the conversation filter and `{ status: 'archived' }`. */
  function Archive(msgs: seq<Message>, u1: UserId, u2: UserId): (r: seq<Message>)
    ensures |r| == |msgs|
    ensures forall i :: 0 <= i < |msgs| && Between(msgs[i], u1, u2) ==> r[i] == msgs[i].(status := Archived)
    ensures forall i :: 0 <= i < |msgs| && !Between(msgs[i], u1, u2) ==> r[i] == msgs[i]
  {
    if msgs == [] then []
    else
      var head := if Between(msgs[0], u1, u2) then msgs[0].(status := Archived) else msgs[0];
      [head] + Archive(msgs[1..], u1, u2)
  }

  /** `archiveChat`: 400 unless both users are given. */
  function ArchiveDecision(msgs: seq<Message>, user1: Option<string>, user2: Option<string>): (r: Result<seq<Message>>)
    ensures !(Present(user1) && Present(user2)) <==> r == Failure(Fault(400, "user1 and user2 are required"))
    ensures r.Failure? ==> r == Failure(Fault(400, "user1 and user2 are required"))
    ensures r.Success? ==> r.value == Archive(msgs, user1.value, user2.value)
  {
    if !Present(user1) || !Present(user2) then Failure(Fault(400, "user1 and user2 are required"))
    else Success(Archive(msgs, user1.value, user2.value))
  }

  lemma ArchiveIdempotent(msgs: seq<Message>, u1: UserId, u2: UserId)
    ensures Archive(Archive(msgs, u1, u2), u1, u2) == Archive(msgs, u1, u2)
  {
    var once := Archive(msgs, u1, u2);
    var twice := Archive(once, u1, u2);
    assert forall i :: 0 <= i < |msgs| ==> Between(once[i], u1, u2) == Between(msgs[i], u1, u2);
    assert forall i :: 0 <= i < |msgs| ==> twice[i] == once[i];
  }

  /** Right after `archiveChat(a, b)` the history of `a` and `b` is empty. */
  lemma ArchiveEmptiesHistory(msgs: seq<Message>, u1: UserId, u2: UserId)
    ensures History(Archive(msgs, u1, u2), u1, u2) == []
  {
    assert Visible(Archive(msgs, u1, u2), u1, u2) == [];
  }

  // ---------------------------------------------------------------------
  // undoMessage: newest 'sent' message to the receiver, within 120 s
  // ---------------------------------------------------------------------

  /** A message the undo query can match. */
  predicate Undoable(m: Message, sender: UserId, receiver: UserId) {
    m.sender == sender && m.receiver == receiver && m.status == Sent
  }

  /** `findOne({sender, receiver, status: {$in: ['sent']}}).sort({createdAt: -1})`:
      the matching message with the greatest `createdAt`; among equal
      timestamps, the one stored last. */
  function UndoTarget(msgs: seq<Message>, sender: UserId, receiver: UserId): (r: Option<nat>)
    ensures r.None? <==> forall j :: 0 <= j < |msgs| ==> !Undoable(msgs[j], sender, receiver)
    ensures r.Some? ==> r.value < |msgs| && Undoable(msgs[r.value], sender, receiver)
    ensures r.Some? ==> forall j :: 0 <= j < |msgs| && Undoable(msgs[j], sender, receiver) ==>
      msgs[j].createdAt <= msgs[r.value].createdAt
    ensures r.Some? ==> forall j :: r.value < j < |msgs| && Undoable(msgs[j], sender, receiver) ==>
      msgs[j].createdAt < msgs[r.value].createdAt
  {
    if msgs == [] then None
    else
      var k := |msgs| - 1;
      var t := UndoTarget(msgs[..k], sender, receiver);
      assert forall j :: 0 <= j < k ==> msgs[..k][j] == msgs[j];
      if Undoable(msgs[k], sender, receiver) && (t.None? || msgs[t.value].createdAt <= msgs[k].createdAt)
      then Some(k)
      else t
  }

  const ReceiverRequired := Fault(400, "Receiver is required")
  const NothingToUndo := Fault(404, "No message to undo")
  const WindowExpired := Fault(400, "Undo window expired")

  /** Which message `undoMessage` marks deleted at time `now`, or why it
      refuses. */
  function UndoDecision(msgs: seq<Message>, sender: UserId, receiver: Option<string>, now: int): (r: Result<nat>)
    ensures !Present(receiver) <==> r == Failure(ReceiverRequired)
    ensures r.Failure? ==> r == Failure(ReceiverRequired) || r == Failure(NothingToUndo) || r == Failure(WindowExpired)
    ensures Present(receiver) ==>
      (r == Failure(NothingToUndo) <==> forall j :: 0 <= j < |msgs| ==> !Undoable(msgs[j], sender, receiver.value))
    ensures Present(receiver) ==>
      (r == Failure(WindowExpired) <==>
        exists j :: 0 <= j < |msgs| && Undoable(msgs[j], sender, receiver.value) &&
          forall k :: 0 <= k < |msgs| && Undoable(msgs[k], sender, receiver.value) ==> now - msgs[k].createdAt > UndoWindowMs)
    ensures r.Success? ==> Present(receiver) && r.value < |msgs| && Undoable(msgs[r.value], sender, receiver.value)
    ensures r.Success? ==> now - msgs[r.value].createdAt <= UndoWindowMs
    ensures r.Success? ==> forall j :: 0 <= j < |msgs| && Undoable(msgs[j], sender, receiver.value) ==>
      msgs[j].createdAt <= msgs[r.value].createdAt
  {
    if !Present(receiver) then Failure(ReceiverRequired)
    else
      match UndoTarget(msgs, sender, receiver.value)
      case None => Failure(NothingToUndo)
      case Some(i) =>
        if now - msgs[i].createdAt > UndoWindowMs then Failure(WindowExpired)
        else
          assert !Undoable(msgs[i], sender, receiver.value) || now - msgs[i].createdAt <= UndoWindowMs;
          Success(i)
  }

  /** Exactly 120 s after sending, the undo still succeeds. */
  lemma UndoAtWindowEdge(msgs: seq<Message>, sender: UserId, receiver: UserId, i: nat)
    requires receiver != ""
    requires UndoTarget(msgs, sender, receiver) == Some(i)
    ensures UndoDecision(msgs, sender, Some(receiver), msgs[i].createdAt + UndoWindowMs) == Success(i)
    ensures UndoDecision(msgs, sender, Some(receiver), msgs[i].createdAt + UndoWindowMs + 1) == Failure(WindowExpired)
  {
  }

  /** An undo changes exactly one message, the target, to deleted; messages
      to other receivers and messages that are not `sent` keep everything. */
  lemma UndoTouchesOnlyTarget(msgs: seq<Message>, sender: UserId, receiver: UserId, now: int, i: nat)
    requires UndoDecision(msgs, sender, Some(receiver), now) == Success(i)
    ensures forall j :: 0 <= j < |msgs| && !Undoable(msgs[j], sender, receiver) ==>
      WithStatus(msgs, i, Deleted)[j] == msgs[j]
    ensures WithStatus(msgs, i, Deleted)[i].status == Deleted
    ensures forall j :: 0 <= j < |msgs| && Undoable(WithStatus(msgs, i, Deleted)[j], sender, receiver) ==>
      j != i && msgs[j].createdAt <= msgs[i].createdAt
  {
  }

  /** The timeline of a send at t = 0 followed by an undo at 119 s, which
      succeeds, and a second undo at 121 s, which finds nothing: the first
      message is no longer `sent`, so the answer is 404 and not "expired". */
  lemma UndoScenario()
    ensures var m := Message(0, "u1", "u2", "hi", 0, Sent);
      && UndoDecision([m], "u1", Some("u2"), 119000) == Success(0)
      && UndoDecision(WithStatus([m], 0, Deleted), "u1", Some("u2"), 121000) == Failure(NothingToUndo)
  {
    var m := Message(0, "u1", "u2", "hi", 0, Sent);
    assert UndoTarget([m], "u1", "u2") == Some(0);
    assert !Undoable(WithStatus([m], 0, Deleted)[0], "u1", "u2");
  }

  // ---------------------------------------------------------------------
  // The store and the controllers that change it
  // ---------------------------------------------------------------------

  /** The `Message` collection: records in insertion order and the counter
      from which the store draws fresh ids. */
  class MessageTable {
    var msgs: seq<Message>
    var nextId: nat

    ghost predicate Valid()
      reads this
    {
      IdsDistinct(msgs) && forall i :: 0 <= i < |msgs| ==> msgs[i].id < nextId
    }

    constructor ()
      ensures Valid() && msgs == [] && nextId == 0
    {
      msgs := [];
      nextId := 0;
    }

    /** `Message.create`: a new `sent` record with a fresh id and the
        store's timestamp `now`. */
    method Create(sender: UserId, receiver: UserId, text: string, now: int) returns (m: Message)
      requires Valid()
      modifies this
      ensures Valid()
      ensures m == Message(old(nextId), sender, receiver, text, now, Sent)
      ensures msgs == old(msgs) + [m] && nextId == old(nextId) + 1
    {
      m := Message(nextId, sender, receiver, text, now, Sent);
      msgs := msgs + [m];
      nextId := nextId + 1;
    }

    /** `message.status = st; await message.save()`. */
    method SaveStatus(i: nat, st: Status)
      requires Valid() && i < |msgs|
      modifies this`msgs
      ensures Valid()
      ensures msgs == WithStatus(old(msgs), i, st)
    {
      msgs := WithStatus(msgs, i, st);
    }

    /** `Message.findByIdAndUpdate(id, { status: st })`: no owner check, and
        nothing happens for an unknown id. */
    method FindByIdAndUpdate(id: MessageId, st: Status)
      requires Valid()
      modifies this`msgs
      ensures Valid()
      ensures FindById(old(msgs), id).None? ==> msgs == old(msgs)
      ensures FindById(old(msgs), id).Some? ==> msgs == WithStatus(old(msgs), FindById(old(msgs), id).value, st)
    {
      match FindById(msgs, id)
      case None =>
      case Some(i) => msgs := WithStatus(msgs, i, st);
    }

    /** `Message.updateMany(conversation, { status: 'archived' })`. */
    method ArchiveConversation(u1: UserId, u2: UserId)
      requires Valid()
      modifies this`msgs
      ensures Valid()
      ensures msgs == Archive(old(msgs), u1, u2)
    {
      msgs := Archive(msgs, u1, u2);
    }
  }

  /** `sendMessage`: 400 if any field is missing, else one new record. */
  method SendMessage(table: MessageTable, sender: Option<string>, receiver: Option<string>, text: Option<string>, now: int)
    returns (r: Result<Message>)
    requires table.Valid()
    modifies table
    ensures table.Valid()
    ensures !(Present(sender) && Present(receiver) && Present(text)) ==>
      r == Failure(Fault(400, "All fields are required")) &&
      table.msgs == old(table.msgs) && table.nextId == old(table.nextId)
    ensures Present(sender) && Present(receiver) && Present(text) ==>
      r == Success(Message(old(table.nextId), sender.value, receiver.value, text.value, now, Sent)) &&
      table.msgs == old(table.msgs) + [r.value] && table.nextId == old(table.nextId) + 1
  {
    if !Present(sender) || !Present(receiver) || !Present(text) {
      return Failure(Fault(400, "All fields are required"));
    }
    var m := table.Create(sender.value, receiver.value, text.value, now);
    r := Success(m);
  }

  /** `deleteMessage`: the decision, then the save. */
  method DeleteMessage(table: MessageTable, requester: UserId, id: MessageId) returns (r: Result<Message>)
    requires table.Valid()
    modifies table`msgs
    ensures table.Valid()
    ensures DeleteDecision(old(table.msgs), requester, id).Failure? ==>
      table.msgs == old(table.msgs) && r == Failure(DeleteDecision(old(table.msgs), requester, id).fault)
    ensures DeleteDecision(old(table.msgs), requester, id).Success? ==>
      var i := DeleteDecision(old(table.msgs), requester, id).value;
      table.msgs == WithStatus(old(table.msgs), i, Deleted) && r == Success(table.msgs[i])
  {
    match DeleteDecision(table.msgs, requester, id)
    case Failure(f) => r := Failure(f);
    case Success(i) =>
      table.SaveStatus(i, Deleted);
      r := Success(table.msgs[i]);
  }

  /** `archiveChat`. */
  method ArchiveChat(table: MessageTable, user1: Option<string>, user2: Option<string>) returns (r: Result<()>)
    requires table.Valid()
    modifies table`msgs
    ensures table.Valid()
    ensures ArchiveDecision(old(table.msgs), user1, user2).Failure? ==>
      table.msgs == old(table.msgs) && r == Failure(Fault(400, "user1 and user2 are required"))
    ensures ArchiveDecision(old(table.msgs), user1, user2).Success? ==>
      table.msgs == ArchiveDecision(old(table.msgs), user1, user2).value && r == Success(())
  {
    if !Present(user1) || !Present(user2) {
      return Failure(Fault(400, "user1 and user2 are required"));
    }
    table.ArchiveConversation(user1.value, user2.value);
    r := Success(());
  }

  /** `undoMessage` at time `now`. */
  method UndoMessage(table: MessageTable, sender: UserId, receiver: Option<string>, now: int) returns (r: Result<Message>)
    requires table.Valid()
    modifies table`msgs
    ensures table.Valid()
    ensures UndoDecision(old(table.msgs), sender, receiver, now).Failure? ==>
      table.msgs == old(table.msgs) && r == Failure(UndoDecision(old(table.msgs), sender, receiver, now).fault)
    ensures UndoDecision(old(table.msgs), sender, receiver, now).Success? ==>
      var i := UndoDecision(old(table.msgs), sender, receiver, now).value;
      table.msgs == WithStatus(old(table.msgs), i, Deleted) && r == Success(table.msgs[i])
  {
    match UndoDecision(table.msgs, sender, receiver, now)
    case Failure(f) => r := Failure(f);
    case Success(i) =>
      table.SaveStatus(i, Deleted);
      r := Success(table.msgs[i]);
  }
}
