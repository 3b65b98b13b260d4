/**
 * The real-time side of the chat: the connection guard, room membership and
 * the events each handler emits. Each handler runs as one atomic step over
 * the store and the server's own state: who is connected as whom, which
 * sockets are in which conversation room, and every delivery made so far
 * (an event together with the exact set of sockets it reaches).
 */
module SocketHandler {
  import opened Wrappers
  import opened Strings
  import opened Store
  import opened Chat

  type SocketId = nat

  /** The events the server emits, with their payloads. */
  datatype Event =
    | ReceiveMessage(message: Message)
    | MessagesRead(conversationId: nat, readerId: nat)
    | MessageDeleted(messageId: nat, deleteType: string, deletedFor: Option<nat>, conversationId: nat)
    | UserTyping(userId: nat, userName: string)
    | UserStoppedTyping(userId: nat)
    | ErrorEvent(text: string)

  /** One emitted event and the sockets it reaches. */
  datatype Delivery = Delivery(to: set<SocketId>, event: Event)

  const NotAuthorizedToJoin := "Not authorized to join this conversation"
  const ContentRequired := "Message content, image, video, or product is required"
  const NotAuthorizedToSend := "Not authorized to send message to this conversation"
  const FailedToSend := "Failed to send message"

  /** The outcome of the connection guard. */
  datatype Handshake = Accepted(userId: nat) | NoToken | InvalidToken

  /**
   * The connection guard: a falsy token is refused, a token `verify` rejects
   * is refused, and otherwise the connection is the token's user.
   */
  function Authenticate(token: Option<string>, verify: string -> Option<nat>): (r: Handshake)
    ensures r.NoToken? <==> !TruthyStr(token)
    ensures r.Accepted? <==> TruthyStr(token) && verify(token.value).Some?
    ensures r.Accepted? ==> r.userId == verify(token.value).value
  {
    if !TruthyStr(token) then NoToken
    else match verify(token.value)
      case None => InvalidToken
      case Some(u) => Accepted(u)
  }

  /** `updatedAt := t` on the conversation with key `cid`; every other row is unchanged. */
  function Touch(cs: seq<Conversation>, cid: nat, t: nat): (r: seq<Conversation>)
    ensures |r| == |cs|
    ensures forall i :: 0 <= i < |cs| ==> r[i] == if cs[i].id == cid then cs[i].(updatedAt := t) else cs[i]
  {
    seq(|cs|, i requires 0 <= i < |cs| => if cs[i].id == cid then cs[i].(updatedAt := t) else cs[i])
  }

  /** Touching a conversation at the next tick keeps the table well formed under the advanced counters. */
  lemma TouchWellFormed(cs: seq<Conversation>, cid: nat, n: nat, t: nat)
    requires ConversationsWellFormed(cs, n, t)
    ensures ConversationsWellFormed(Touch(cs, cid, t + 1), n + 1, t + 2)
  {
  }

  /** Touching a conversation never removes a participant. */
  lemma TouchKeepsParticipation(cs: seq<Conversation>, cid: nat, t: nat)
    ensures forall c, u :: Participates(cs, c, u) ==> Participates(Touch(cs, cid, t), c, u)
  {
    forall c, u ensures Participates(cs, c, u) ==> Participates(Touch(cs, cid, t), c, u) {
      ParticipationKept(cs, Touch(cs, cid, t), c, u);
    }
  }

  /** The row send_message stores: defaults for a falsy text, null for falsy media and product. */
  function NewMessage(id: nat, cid: nat, sender: nat, content: Option<string>, image: Option<string>,
                      video: Option<string>, productId: Option<nat>, t: nat): (m: Message)
    ensures m.id == id && m.conversationId == cid && m.senderId == sender && m.createdAt == t
    ensures m.content == (if TruthyStr(content) then content.value else "")
    ensures m.image.Some? <==> TruthyStr(image)
    ensures m.video.Some? <==> TruthyStr(video)
    ensures m.productId.Some? <==> TruthyNat(productId)
    ensures m.productId.Some? ==> m.productId == productId
    ensures !m.isRead && !m.isDeleted && m.deletedBy == ""
  {
    Message(id, cid, sender, if TruthyStr(content) then content.value else "",
            OrNull(image), OrNull(video), if TruthyNat(productId) then productId else None,
            false, false, "", t)
  }

  /** The store side of a send: the new row, the conversation's later `updatedAt`, both counters advanced. */
  method InsertMessage(db: Db, cid: nat, sender: nat, content: Option<string>, image: Option<string>,
                       video: Option<string>, productId: Option<nat>) returns (m: Message)
    requires db.Valid()
    modifies db`messages, db`conversations, db`clock, db`nextId
    ensures m == NewMessage(old(db.nextId), cid, sender, content, image, video, productId, old(db.clock))
    ensures db.messages == old(db.messages) + [m]
    ensures db.conversations == Touch(old(db.conversations), cid, old(db.clock) + 1)
    ensures db.nextId == old(db.nextId) + 1 && db.clock == old(db.clock) + 2
    ensures db.Valid()
  {
    var t, n := db.clock, db.nextId;
    m := NewMessage(n, cid, sender, content, image, video, productId, t);
    var ms, cs := db.messages + [m], Touch(db.conversations, cid, t + 1);
    MessagesAppend(db.messages, m, n, t);
    MessagesGrow(ms, n + 1, t + 1, n + 1, t + 2);
    TouchWellFormed(db.conversations, cid, n, t);
    ProductsGrow(db.products, n, t, n + 1, t + 2);
    AddressesGrow(db.addresses, n, n + 1);
    db.messages, db.conversations, db.nextId, db.clock := ms, cs, n + 1, t + 2;
  }

  class SocketServer {
    /** The user each connected socket authenticated as. */
    var sessions: map<SocketId, nat>
    /** The sockets joined to each conversation's room (`conversation_<id>`, keyed by the id). */
    var rooms: map<nat, set<SocketId>>
    /** Every event emitted so far, in order. */
    var outbox: seq<Delivery>

    constructor ()
      ensures sessions == map[] && rooms == map[] && outbox == []
    {
      sessions, rooms, outbox := map[], map[], [];
    }

    /** The sockets in conversation `cid`'s room. */
    function Members(cid: nat): set<SocketId>
      reads this
    {
      if cid in rooms then rooms[cid] else {}
    }

    /** Every room member is a connected socket whose user participates in that conversation. */
    ghost predicate Valid(db: Db)
      reads this, db
    {
      forall c, s :: c in rooms && s in rooms[c] ==>
        s in sessions && Participates(db.conversations, c, sessions[s])
    }

    /** The connection guard. On acceptance the socket is bound to the token's user for its lifetime. */
    method Connect(db: Db, sid: SocketId, token: Option<string>, verify: string -> Option<nat>) returns (r: Handshake)
      requires sid !in sessions && Valid(db)
      modifies this`sessions
      ensures r == Authenticate(token, verify)
      ensures sessions == if r.Accepted? then old(sessions)[sid := r.userId] else old(sessions)
      ensures Valid(db)
    {
      r := Authenticate(token, verify);
      if r.Accepted? {
        sessions := sessions[sid := r.userId];
      }
    }

    /** The transport drops a closed socket from every room; its session ends. */
    method Disconnect(db: Db, sid: SocketId)
      requires Valid(db)
      modifies this`sessions, this`rooms
      ensures sessions == old(sessions) - {sid}
      ensures rooms.Keys == old(rooms).Keys && forall c :: c in rooms ==> rooms[c] == old(rooms)[c] - {sid}
      ensures Valid(db)
    {
      rooms := map c | c in rooms :: rooms[c] - {sid};
      sessions := sessions - {sid};
    }

    /** Emit `e` to every socket in conversation `cid`'s room (`io.to(room).emit`). */
    method Broadcast(cid: nat, e: Event)
      modifies this`outbox
      ensures outbox == old(outbox) + [Delivery(Members(cid), e)]
    {
      outbox := outbox + [Delivery(Members(cid), e)];
    }

    /**
     * join_room: a participant's socket enters the room and the other members
     * learn that the joiner has read their messages; anyone else gets an error
     * and no room changes. The store is not written.
     */
    method JoinRoom(db: Db, sid: SocketId, cid: nat)
      requires sid in sessions && Valid(db)
      modifies this`rooms, this`outbox
      ensures var u := sessions[sid];
        if Participates(db.conversations, cid, u) then
          && rooms == old(rooms)[cid := old(Members(cid)) + {sid}]
          && outbox == old(outbox) + [Delivery(old(Members(cid)) - {sid}, MessagesRead(cid, u))]
        else
          && rooms == old(rooms)
          && outbox == old(outbox) + [Delivery({sid}, ErrorEvent(NotAuthorizedToJoin))]
      ensures Valid(db)
    {
      var u := sessions[sid];
      if !Participates(db.conversations, cid, u) {
        outbox := outbox + [Delivery({sid}, ErrorEvent(NotAuthorizedToJoin))];
        return;
      }
      var before := Members(cid);
      rooms := rooms[cid := before + {sid}];
      outbox := outbox + [Delivery(before - {sid}, MessagesRead(cid, u))];
    }

    /**
     * mark_read: every unread message of the conversation sent by someone
     * else becomes read, and the other room members are told. There is no
     * participant check.
     */
    method MarkRead(db: Db, sid: SocketId, cid: nat)
      requires sid in sessions && db.Valid() && Valid(db)
      modifies db`messages, this`outbox
      ensures db.messages == Chat.MarkRead(old(db.messages), cid, sessions[sid])
      ensures outbox == old(outbox) + [Delivery(Members(cid) - {sid}, MessagesRead(cid, sessions[sid]))]
      ensures db.Valid() && Valid(db)
    {
      var u := sessions[sid];
      db.messages := Chat.MarkRead(db.messages, cid, u);
      outbox := outbox + [Delivery(Members(cid) - {sid}, MessagesRead(cid, u))];
    }

    /**
     * send_message: an empty message and a sender outside the conversation
     * are refused with an error to the sender alone; a product key with no
     * row makes the insert fail. Otherwise exactly one message is stored,
     * the conversation's `updatedAt` moves to a later time, and the stored
     * row goes to every member of the room, the sender's socket included.
     */
    method SendMessage(db: Db, sid: SocketId, cid: nat, content: Option<string>, image: Option<string>,
                       video: Option<string>, productId: Option<nat>)
      requires sid in sessions && db.Valid() && Valid(db)
      modifies db`messages, db`conversations, db`clock, db`nextId, this`outbox
      ensures var u := sessions[sid];
        if SendRefused(content, image, video, productId) then
          && unchanged(db)
          && outbox == old(outbox) + [Delivery({sid}, ErrorEvent(ContentRequired))]
        else if !Participates(old(db.conversations), cid, u) then
          && unchanged(db)
          && outbox == old(outbox) + [Delivery({sid}, ErrorEvent(NotAuthorizedToSend))]
        else if TruthyNat(productId) && FindProduct(db.products, productId.value).None? then
          && unchanged(db)
          && outbox == old(outbox) + [Delivery({sid}, ErrorEvent(FailedToSend))]
        else
          var m := NewMessage(old(db.nextId), cid, u, content, image, video, productId, old(db.clock));
          && db.messages == old(db.messages) + [m]
          && db.conversations == Touch(old(db.conversations), cid, old(db.clock) + 1)
          && db.nextId == old(db.nextId) + 1 && db.clock == old(db.clock) + 2
          && outbox == old(outbox) + [Delivery(Members(cid), ReceiveMessage(m))]
      ensures db.Valid() && Valid(db)
    {
      var u := sessions[sid];
      if SendRefused(content, image, video, productId) {
        outbox := outbox + [Delivery({sid}, ErrorEvent(ContentRequired))];
        return;
      }
      if !Participates(db.conversations, cid, u) {
        outbox := outbox + [Delivery({sid}, ErrorEvent(NotAuthorizedToSend))];
        return;
      }
      if TruthyNat(productId) && FindProduct(db.products, productId.value).None? {
        outbox := outbox + [Delivery({sid}, ErrorEvent(FailedToSend))];
        return;
      }
      var cs := db.conversations;
      var m := InsertMessage(db, cid, u, content, image, video, productId);
      TouchKeepsParticipation(cs, cid, db.clock - 1);
      outbox := outbox + [Delivery(Members(cid), ReceiveMessage(m))];
    }

    /** typing: the other members of the room see who is typing; nothing is stored. */
    method Typing(sid: SocketId, cid: nat, userName: string)
      requires sid in sessions
      modifies this`outbox
      ensures outbox == old(outbox) + [Delivery(Members(cid) - {sid}, UserTyping(sessions[sid], userName))]
    {
      outbox := outbox + [Delivery(Members(cid) - {sid}, UserTyping(sessions[sid], userName))];
    }

    /** stopped_typing: the other members of the room see that the user stopped; nothing is stored. */
    method StoppedTyping(sid: SocketId, cid: nat)
      requires sid in sessions
      modifies this`outbox
      ensures outbox == old(outbox) + [Delivery(Members(cid) - {sid}, UserStoppedTyping(sessions[sid]))]
    {
      outbox := outbox + [Delivery(Members(cid) - {sid}, UserStoppedTyping(sessions[sid]))];
    }
  }

  /** Every socket a room event reaches belongs to a participant of that conversation. */
  lemma RoomReachesOnlyParticipants(io: SocketServer, db: Db, cid: nat, s: SocketId)
    requires io.Valid(db) && s in io.Members(cid)
    ensures s in io.sessions && Participates(db.conversations, cid, io.sessions[s])
  {
  }

  /** A stored message is never rejected by the send validation, and its text is never absent. */
  lemma StoredMessageWasValid(id: nat, cid: nat, sender: nat, content: Option<string>, image: Option<string>,
                              video: Option<string>, productId: Option<nat>, t: nat)
    requires !SendRefused(content, image, video, productId)
    ensures var m := NewMessage(id, cid, sender, content, image, video, productId, t);
            Trim(m.content) != "" || m.image.Some? || m.video.Some? || m.productId.Some?
  {
  }
}
