/**
 * The chat HTTP handlers: find-or-create of a two-party conversation, the
 * conversation list with one preview each, the transcript (which first
 * marks the viewer's incoming messages read), the image upload answer and
 * the two kinds of message deletion.
 */
module ChatController {
  import opened Wrappers
  import opened Strings
  import opened Store
  import opened DeletedBy
  import opened Chat
  import opened SocketHandler

  /** Every participant of `c` is `a` or `b` (`participants: {every: {userId: {in: [a, b]}}}`). */
  predicate WithinPair(c: Conversation, a: nat, b: nat) {
    forall k :: 0 <= k < |c.participants| ==> c.participants[k] == a || c.participants[k] == b
  }

  /** The first conversation whose participants all lie in `{a, b}`, as `findFirst` picks it. */
  function FindExisting(cs: seq<Conversation>, a: nat, b: nat): (r: Option<nat>)
    ensures r.Some? ==> r.value < |cs| && WithinPair(cs[r.value], a, b)
    ensures r.Some? ==> forall j :: 0 <= j < r.value ==> !WithinPair(cs[j], a, b)
    ensures r.None? ==> forall j :: 0 <= j < |cs| ==> !WithinPair(cs[j], a, b)
    decreases |cs|
  {
    if |cs| == 0 then None
    else if WithinPair(cs[0], a, b) then Some(0)
    else match FindExisting(cs[1..], a, b)
      case None => None
      case Some(k) => Some(k + 1)
  }

  /** The lookup is symmetric: starting A→B or B→A finds the same conversation. */
  lemma {:induction false} FindExistingSymmetric(cs: seq<Conversation>, a: nat, b: nat)
    ensures FindExisting(cs, a, b) == FindExisting(cs, b, a)
    decreases |cs|
  {
    if |cs| > 0 {
      assert WithinPair(cs[0], a, b) == WithinPair(cs[0], b, a);
      FindExistingSymmetric(cs[1..], a, b);
    }
  }

  /** The set of users taking part in `c`. */
  function ParticipantSet(c: Conversation): set<nat> {
    set k | 0 <= k < |c.participants| :: c.participants[k]
  }

  /** Every conversation has exactly two participant rows, for two different users. */
  ghost predicate TwoParty(cs: seq<Conversation>) {
    forall i :: 0 <= i < |cs| ==> |cs[i].participants| == 2 && cs[i].participants[0] != cs[i].participants[1]
  }

  /** No two conversations are between the same two users. */
  ghost predicate OnePerPair(cs: seq<Conversation>) {
    forall i, j :: 0 <= i < j < |cs| ==> ParticipantSet(cs[i]) != ParticipantSet(cs[j])
  }

  /** In a two-party store, a conversation found for `{a, b}` is exactly the conversation between them. */
  lemma FoundIsThePair(cs: seq<Conversation>, a: nat, b: nat, i: nat)
    requires TwoParty(cs) && a != b && i < |cs| && WithinPair(cs[i], a, b)
    ensures |cs[i].participants| == 2 && ParticipantSet(cs[i]) == {a, b}
  {
    var p := cs[i].participants;
    assert p[0] in ParticipantSet(cs[i]) && p[1] in ParticipantSet(cs[i]);
    assert ParticipantSet(cs[i]) == {p[0], p[1]};
  }

  /** Creating the pair only when no conversation lies within it keeps both invariants. */
  lemma CreateKeepsOnePerPair(cs: seq<Conversation>, a: nat, b: nat, c: Conversation)
    requires TwoParty(cs) && OnePerPair(cs) && a != b
    requires FindExisting(cs, a, b).None? && c.participants == [a, b]
    ensures TwoParty(cs + [c]) && OnePerPair(cs + [c])
  {
    var cs' := cs + [c];
    assert ParticipantSet(c) == {a, b} by {
      assert c.participants[0] == a && c.participants[1] == b;
    }
    forall i, j | 0 <= i < j < |cs'| ensures ParticipantSet(cs'[i]) != ParticipantSet(cs'[j]) {
      if j == |cs| {
        assert cs'[i] == cs[i] && !WithinPair(cs[i], a, b);
        var k :| 0 <= k < |cs[i].participants| && cs[i].participants[k] != a && cs[i].participants[k] != b;
        assert cs[i].participants[k] in ParticipantSet(cs[i]);
      }
    }
  }

  /**
   * A store holding a one-person conversation shows why the length test is
   * there: that row is found first for the pair, so a new conversation is
   * created although the pair's own conversation already exists.
   */
  lemma LoneRowShadowsPair(a: nat, b: nat)
    requires a != b
    ensures var cs := [Conversation(0, [a], 0, 0), Conversation(1, [a, b], 0, 0)];
            FindExisting(cs, a, b) == Some(0) && |cs[0].participants| != 2 && ParticipantSet(cs[1]) == {a, b}
  {
    var cs := [Conversation(0, [a], 0, 0), Conversation(1, [a, b], 0, 0)];
    assert WithinPair(cs[0], a, b);
    FoundIsPairSet(cs[1], a, b);
  }

  lemma FoundIsPairSet(c: Conversation, a: nat, b: nat)
    requires c.participants == [a, b]
    ensures ParticipantSet(c) == {a, b}
  {
    assert c.participants[0] == a && c.participants[1] == b;
  }

  /**
   * startConversation. A falsy target and the caller's own id are refused
   * with 400 before the store is read. A conversation whose participants all
   * lie in the pair and that has two rows is answered as it is; otherwise a
   * new conversation with exactly the two is created (201). A target with
   * no user row violates the participant's foreign key and answers 500.
   */
  method StartConversation(db: Db, caller: nat, target: Option<nat>) returns (status: Status, conv: Option<Conversation>)
    requires db.Valid()
    modifies db`conversations, db`nextId, db`clock
    ensures db.Valid()
    ensures !TruthyNat(target) || target.value == caller ==> status == BadRequest && conv.None? && unchanged(db)
    ensures TruthyNat(target) && target.value != caller ==>
      var t := target.value;
      var found := FindExisting(old(db.conversations), caller, t);
      if found.Some? && |old(db.conversations)[found.value].participants| == 2 then
        status == Ok && conv == Some(old(db.conversations)[found.value]) && unchanged(db)
      else if FindUser(db.users, t).None? then
        status == ServerError && conv.None? && unchanged(db)
      else
        var c := Conversation(old(db.nextId), [caller, t], old(db.clock), old(db.clock));
        && status == Created && conv == Some(c)
        && db.conversations == old(db.conversations) + [c]
        && db.nextId == old(db.nextId) + 1 && db.clock == old(db.clock) + 1
    ensures TwoParty(old(db.conversations)) && OnePerPair(old(db.conversations)) ==>
              TwoParty(db.conversations) && OnePerPair(db.conversations)
    ensures forall c, u :: Participates(old(db.conversations), c, u) ==> Participates(db.conversations, c, u)
  {
    if !TruthyNat(target) || target.value == caller {
      return BadRequest, None;
    }
    var t := target.value;
    var found := FindExisting(db.conversations, caller, t);
    if found.Some? && |db.conversations[found.value].participants| == 2 {
      return Ok, Some(db.conversations[found.value]);
    }
    if FindUser(db.users, t).None? {
      return ServerError, None;
    }
    var c := Conversation(db.nextId, [caller, t], db.clock, db.clock);
    var cs := db.conversations;
    if TwoParty(cs) && OnePerPair(cs) {
      CreateKeepsOnePerPair(cs, caller, t, c);
    }
    db.conversations := cs + [c];
    db.nextId := db.nextId + 1;
    db.clock := db.clock + 1;
    forall k, u ensures Participates(cs, k, u) ==> Participates(db.conversations, k, u) {
      ParticipationKept(cs, db.conversations, k, u);
    }
    status, conv := Created, Some(c);
  }

  /** Non-increasing `updatedAt` along the sequence */
  ghost predicate LatestActivityFirst(cs: seq<Conversation>) {
    forall i, j :: 0 <= i < j < |cs| ==> cs[i].updatedAt >= cs[j].updatedAt
  }

  /** Insert `c` into a newest-first list, after every strictly newer conversation. */
  function InsertByUpdated(c: Conversation, sorted: seq<Conversation>): (r: seq<Conversation>)
    ensures multiset(r) == multiset(sorted) + multiset{c}
    decreases |sorted|
  {
    if |sorted| == 0 then [c]
    else if sorted[0].updatedAt > c.updatedAt then
      assert sorted == [sorted[0]] + sorted[1..];
      [sorted[0]] + InsertByUpdated(c, sorted[1..])
    else [c] + sorted
  }

  /** Putting a conversation at least as recent as all others in front keeps the list newest first. */
  lemma ConsLatestActivityFirst(c: Conversation, rest: seq<Conversation>)
    requires LatestActivityFirst(rest)
    requires forall k :: 0 <= k < |rest| ==> c.updatedAt >= rest[k].updatedAt
    ensures LatestActivityFirst([c] + rest)
  {
    var r := [c] + rest;
    assert forall k :: 0 < k < |r| ==> r[k] == rest[k - 1];
  }

  lemma {:induction false} InsertKeepsLatestActivityFirst(c: Conversation, sorted: seq<Conversation>)
    requires LatestActivityFirst(sorted)
    ensures LatestActivityFirst(InsertByUpdated(c, sorted))
    decreases |sorted|
  {
    if |sorted| > 0 && sorted[0].updatedAt > c.updatedAt {
      var rest := InsertByUpdated(c, sorted[1..]);
      InsertKeepsLatestActivityFirst(c, sorted[1..]);
      forall k | 0 <= k < |rest| ensures sorted[0].updatedAt >= rest[k].updatedAt {
        assert rest[k] in multiset(rest);
        if rest[k] != c {
          assert rest[k] in multiset(sorted[1..]);
          var j :| 0 <= j < |sorted[1..]| && sorted[1..][j] == rest[k];
          assert sorted[j + 1] == rest[k];
        }
      }
      ConsLatestActivityFirst(sorted[0], rest);
    }
  }

  /** `orderBy: {updatedAt: 'desc'}`: the same conversations, newest first. */
  function SortByUpdated(cs: seq<Conversation>): (r: seq<Conversation>)
    ensures LatestActivityFirst(r) && multiset(r) == multiset(cs)
    decreases |cs|
  {
    if |cs| == 0 then []
    else
      assert cs == [cs[0]] + cs[1..];
      var rest := SortByUpdated(cs[1..]);
      InsertKeepsLatestActivityFirst(cs[0], rest);
      InsertByUpdated(cs[0], rest)
  }

  /** The conversations `u` takes part in, in store order. */
  function ConversationsOf(cs: seq<Conversation>, u: nat): (r: seq<Conversation>)
    ensures forall c :: c in r <==> c in cs && u in c.participants
    ensures forall c :: c in multiset(r) ==> u in c.participants
    decreases |cs|
  {
    if |cs| == 0 then []
    else if u !in cs[0].participants then ConversationsOf(cs[1..], u)
    else [cs[0]] + ConversationsOf(cs[1..], u)
  }

  /** A conversation of the list together with the preview shown for it. */
  datatype Summary = Summary(conversation: Conversation, preview: seq<Message>)

  /** The conversations a list of summaries shows, in order. */
  function Shown(r: seq<Summary>): (cs: seq<Conversation>)
    ensures |cs| == |r| && forall k :: 0 <= k < |r| ==> cs[k] == r[k].conversation
  {
    seq(|r|, k requires 0 <= k < |r| => r[k].conversation)
  }

  /**
   * getConversations: the caller's conversations, each exactly once, newest
   * activity first, each with the preview computed from its ten latest
   * messages.
   */
  function GetConversations(db: Db, caller: nat): (r: seq<Summary>)
    reads db
    ensures multiset(Shown(r)) == multiset(ConversationsOf(db.conversations, caller))
    ensures LatestActivityFirst(Shown(r))
    ensures forall k :: 0 <= k < |r| ==> r[k].preview == ConversationPreview(db.messages, r[k].conversation.id, caller)
  {
    var sorted := SortByUpdated(ConversationsOf(db.conversations, caller));
    var ms := db.messages;
    var r := seq(|sorted|, k requires 0 <= k < |sorted| =>
      Summary(sorted[k], ConversationPreview(ms, sorted[k].id, caller)));
    assert Shown(r) == sorted;
    r
  }

  /** A conversation is listed exactly when the caller takes part in it. */
  lemma GetConversationsExactlyMine(db: Db, caller: nat, c: Conversation)
    ensures c in Shown(GetConversations(db, caller)) <==> c in db.conversations && caller in c.participants
  {
    var r := Shown(GetConversations(db, caller));
    assert c in r <==> c in multiset(r);
  }

  /**
   * getMessages: 404 unless the caller participates. Otherwise the caller's
   * incoming unread messages of the conversation are marked read, and the
   * transcript is returned: every message of the conversation, oldest
   * first, except those the caller deleted for themselves.
   */
  method GetMessages(db: Db, caller: nat, cid: nat) returns (status: Status, transcript: seq<Message>)
    requires db.Valid()
    modifies db`messages
    ensures db.Valid()
    ensures !Participates(db.conversations, cid, caller) ==> status == NotFound && transcript == [] && unchanged(db)
    ensures Participates(db.conversations, cid, caller) ==>
      && status == Ok
      && db.messages == Chat.MarkRead(old(db.messages), cid, caller)
      && transcript == Transcript(MessagesOf(db.messages, cid), caller)
    ensures Ascending(transcript)
    ensures Participates(db.conversations, cid, caller) ==> Chat.MarkRead(db.messages, cid, caller) == db.messages
  {
    if !Participates(db.conversations, cid, caller) {
      return NotFound, [];
    }
    MarkReadIdempotent(db.messages, cid, caller);
    db.messages := Chat.MarkRead(db.messages, cid, caller);
    MessagesOfAscending(db.messages, cid);
    TranscriptAscending(MessagesOf(db.messages, cid), caller);
    status, transcript := Ok, Transcript(MessagesOf(db.messages, cid), caller);
  }

  /** The answer to the chat image upload: `/uploads/<stored file name>`, or 400 without a file. */
  function UploadChatImage(storedName: Option<string>): (r: (Status, Option<string>))
    ensures r.0 == BadRequest <==> storedName.None?
    ensures storedName.Some? ==>
              r.0 == Ok && r.1.Some? && StartsWith(r.1.value, "/uploads/") && r.1.value[|"/uploads/"|..] == storedName.value
  {
    match storedName
      case None => (BadRequest, None)
      case Some(name) => (Ok, Some("/uploads/" + name))
  }

  const Everyone := "everyone"
  const Me := "me"

  /**
   * deleteMessage. A missing message answers 404 whatever the type.
   * 'everyone' answers 401 unless the caller sent it, and otherwise sets
   * only `isDeleted` on that one row and broadcasts without a user id.
   * 'me' lists the caller in `deletedBy` and broadcasts with the caller's
   * id, or, when the caller is listed already, answers the row with no
   * write and no broadcast. Any other type answers 400.
   */
  method DeleteMessage(db: Db, io: SocketServer?, caller: nat, mid: nat, deleteType: string)
    returns (status: Status, result: Option<Message>)
    requires db.Valid()
    requires io != null ==> io.Valid(db)
    modifies db`messages, if io != null then {io} else {}
    ensures db.Valid()
    ensures io != null ==> io.Valid(db) && io.sessions == old(io.sessions) && io.rooms == old(io.rooms)
    ensures var found := FindMessage(old(db.messages), mid);
      if found.None? then
        status == NotFound && result.None? && unchanged(db) && (io != null ==> unchanged(io))
      else
        var i := found.value;
        var m := old(db.messages)[i];
        var outcome := Add(m.deletedBy, caller);
        if deleteType == Everyone && m.senderId != caller then
          status == Unauthorized && result.None? && unchanged(db) && (io != null ==> unchanged(io))
        else if deleteType == Everyone then
          && status == Ok && result == Some(m.(isDeleted := true))
          && db.messages == old(db.messages)[i := m.(isDeleted := true)]
          && (io != null ==>
                io.outbox == old(io.outbox) +
                  [Delivery(io.Members(m.conversationId), MessageDeleted(mid, Everyone, None, m.conversationId))])
        else if deleteType == Me && outcome.written then
          && status == Ok && result == Some(m.(deletedBy := outcome.deletedBy))
          && db.messages == old(db.messages)[i := m.(deletedBy := outcome.deletedBy)]
          && (io != null ==>
                io.outbox == old(io.outbox) +
                  [Delivery(io.Members(m.conversationId), MessageDeleted(mid, Me, Some(caller), m.conversationId))])
        else if deleteType == Me then
          status == Ok && result == Some(m) && unchanged(db) && (io != null ==> unchanged(io))
        else
          status == BadRequest && result.None? && unchanged(db) && (io != null ==> unchanged(io))
  {
    var found := FindMessage(db.messages, mid);
    if found.None? {
      return NotFound, None;
    }
    var i := found.value;
    var m := db.messages[i];
    if deleteType == Everyone {
      if m.senderId != caller {
        return Unauthorized, None;
      }
      var m' := m.(isDeleted := true);
      db.SetMessage(i, m');
      if io != null {
        io.Broadcast(m.conversationId, MessageDeleted(mid, Everyone, None, m.conversationId));
      }
      return Ok, Some(m');
    } else if deleteType == Me {
      var outcome := Add(m.deletedBy, caller);
      if outcome.written {
        var m' := m.(deletedBy := outcome.deletedBy);
        db.SetMessage(i, m');
        if io != null {
          io.Broadcast(m.conversationId, MessageDeleted(mid, Me, Some(caller), m.conversationId));
        }
        return Ok, Some(m');
      }
      return Ok, Some(m);
    }
    return BadRequest, None;
  }

  /** After a successful "delete for me" the row is hidden from the caller and from nobody else who saw it. */
  lemma DeleteForMeHidesOnlyCaller(m: Message, caller: nat, other: nat)
    requires other != caller
    ensures HiddenFor(m.(deletedBy := Add(m.deletedBy, caller).deletedBy), caller)
    ensures HiddenFor(m.(deletedBy := Add(m.deletedBy, caller).deletedBy), other) <==> HiddenFor(m, other)
  {
    AddListsOnlyCaller(m.deletedBy, caller, other);
    ListedAgree(Add(m.deletedBy, caller).deletedBy, caller);
    ListedAgree(Add(m.deletedBy, caller).deletedBy, other);
    ListedAgree(m.deletedBy, other);
  }
}
