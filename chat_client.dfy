/**
 * The chat page's own copy of the open conversation and how it follows the
 * server's socket events, plus the page's pure helpers: the preview line of
 * the conversation list, the conversation search, the file picker's limits
 * and the send guard.
 *
 * The page keeps a list of the messages of the active conversation. It fills
 * it from getMessages and then edits it in place on `receive_message`,
 * `messages_read` and `message_deleted`. `Agrees` states that the list shows
 * what a fresh getMessages would: the same messages in the same order, with
 * the same text, media, unsent flag and, on the viewer's own messages, the
 * same read flag (the only fields a bubble draws).
 */
module ChatClient {
  import opened Wrappers
  import opened Strings
  import opened Store
  import opened DeletedBy
  import opened Chat
  import opened UploadMiddleware
  import opened MessageBubble
  import ChatController

  // ---------------------------------------------------------------------
  // Agreement with the server's transcript
  // ---------------------------------------------------------------------

  /** Apply `f` to every message, keeping the order (`list.map(f)`). */
  function MapAll(ms: seq<Message>, f: Message -> Message): (r: seq<Message>)
    ensures |r| == |ms| && forall k :: 0 <= k < |ms| ==> r[k] == f(ms[k])
  {
    seq(|ms|, k requires 0 <= k < |ms| => f(ms[k]))
  }

  /** `list.filter(msg => msg.id !== mid)` */
  function RemoveId(ms: seq<Message>, mid: nat): (r: seq<Message>)
    ensures forall m :: m in r <==> m in ms && m.id != mid
    decreases |ms|
  {
    if |ms| == 0 then []
    else if ms[0].id == mid then RemoveId(ms[1..], mid)
    else [ms[0]] + RemoveId(ms[1..], mid)
  }

  predicate DistinctIds(ms: seq<Message>) {
    forall i, j :: 0 <= i < j < |ms| ==> ms[i].id != ms[j].id
  }

  /** What a bubble draws of a message for `me`: everything but `deletedBy`, and `isRead` only on own messages. */
  function View(m: Message, me: nat): Message {
    m.(deletedBy := "", isRead := m.senderId == me && m.isRead)
  }

  function Views(ms: seq<Message>, me: nat): (r: seq<Message>)
    ensures |r| == |ms| && forall k :: 0 <= k < |ms| ==> r[k] == View(ms[k], me)
  {
    seq(|ms|, k requires 0 <= k < |ms| => View(ms[k], me))
  }

  /** The page's list for conversation `cid` shows what getMessages would return to `me` now. */
  predicate Agrees(client: seq<Message>, server: seq<Message>, cid: nat, me: nat) {
    Views(client, me) == Views(Transcript(MessagesOf(server, cid), me), me)
  }

  lemma {:induction false} MessagesOfAppend(a: seq<Message>, b: seq<Message>, cid: nat)
    ensures MessagesOf(a + b, cid) == MessagesOf(a, cid) + MessagesOf(b, cid)
    decreases |a|
  {
    if |a| > 0 {
      assert (a + b)[1..] == a[1..] + b;
      MessagesOfAppend(a[1..], b, cid);
    } else {
      assert a + b == b;
    }
  }

  /** An edit that keeps every message in its conversation commutes with picking a conversation's messages. */
  lemma {:induction false} MessagesOfMap(ms: seq<Message>, cid: nat, f: Message -> Message)
    requires forall m :: f(m).conversationId == m.conversationId
    ensures MessagesOf(MapAll(ms, f), cid) == MapAll(MessagesOf(ms, cid), f)
    decreases |ms|
  {
    if |ms| == 0 {
      assert MapAll(ms, f) == [];
    } else {
      var fs := MapAll(ms, f);
      assert fs[1..] == MapAll(ms[1..], f);
      MessagesOfMap(ms[1..], cid, f);
      var rest := MessagesOf(ms[1..], cid);
      if ms[0].conversationId == cid {
        assert MapAll([ms[0]] + rest, f) == [f(ms[0])] + MapAll(rest, f);
      }
    }
  }

  /** An edit that does not change who hides a message commutes with the transcript filter. */
  lemma {:induction false} TranscriptMap(ms: seq<Message>, viewer: nat, f: Message -> Message)
    requires forall k :: 0 <= k < |ms| ==> (HiddenFor(f(ms[k]), viewer) <==> HiddenFor(ms[k], viewer))
    ensures Transcript(MapAll(ms, f), viewer) == MapAll(Transcript(ms, viewer), f)
    decreases |ms|
  {
    if |ms| == 0 {
      assert MapAll(ms, f) == [];
    } else {
      var fs := MapAll(ms, f);
      assert fs[1..] == MapAll(ms[1..], f);
      assert forall k :: 0 <= k < |ms[1..]| ==> ms[1..][k] == ms[k + 1];
      TranscriptMap(ms[1..], viewer, f);
      var rest := Transcript(ms[1..], viewer);
      if !HiddenFor(ms[0], viewer) {
        assert MapAll([ms[0]] + rest, f) == [f(ms[0])] + MapAll(rest, f);
      }
    }
  }

  /** An edit that hides message `mid` from the viewer and leaves the rest alone removes it from the transcript. */
  lemma {:induction false} TranscriptHides(ms: seq<Message>, viewer: nat, f: Message -> Message, mid: nat)
    requires forall k :: 0 <= k < |ms| && ms[k].id == mid ==> HiddenFor(f(ms[k]), viewer)
    requires forall k :: 0 <= k < |ms| && ms[k].id != mid ==> f(ms[k]) == ms[k]
    ensures Transcript(MapAll(ms, f), viewer) == RemoveId(Transcript(ms, viewer), mid)
    decreases |ms|
  {
    if |ms| > 0 {
      var fs := MapAll(ms, f);
      assert fs[1..] == MapAll(ms[1..], f);
      assert forall k :: 0 <= k < |ms[1..]| ==> ms[1..][k] == ms[k + 1];
      TranscriptHides(ms[1..], viewer, f, mid);
      var rest := Transcript(ms[1..], viewer);
      if !HiddenFor(ms[0], viewer) {
        assert Transcript(ms, viewer) == [ms[0]] + rest;
        assert ([ms[0]] + rest)[1..] == rest;
      }
    }
  }

  lemma ViewsMap(x: seq<Message>, me: nat, f: Message -> Message, g: Message -> Message)
    requires forall k :: 0 <= k < |x| ==> View(f(x[k]), me) == g(View(x[k], me))
    ensures Views(MapAll(x, f), me) == MapAll(Views(x, me), g)
  {
  }

  lemma ViewsMapSame(x: seq<Message>, me: nat, f: Message -> Message)
    requires forall k :: 0 <= k < |x| ==> View(f(x[k]), me) == View(x[k], me)
    ensures Views(MapAll(x, f), me) == Views(x, me)
  {
  }

  lemma {:induction false} ViewsRemove(x: seq<Message>, me: nat, mid: nat)
    ensures Views(RemoveId(x, mid), me) == RemoveId(Views(x, me), mid)
    decreases |x|
  {
    if |x| > 0 {
      ViewsRemove(x[1..], me, mid);
      assert Views(x, me)[1..] == Views(x[1..], me);
      if x[0].id != mid {
        assert Views([x[0]] + RemoveId(x[1..], mid), me) == [View(x[0], me)] + Views(RemoveId(x[1..], mid), me);
      }
    }
  }

  lemma ViewsAppend(a: seq<Message>, b: seq<Message>, me: nat)
    ensures Views(a + b, me) == Views(a, me) + Views(b, me)
  {
  }

  // ---------------------------------------------------------------------
  // The socket event reducers
  // ---------------------------------------------------------------------

  datatype Received = Received(messages: seq<Message>, emitsMarkRead: bool)

  /**
   * `receive_message`: a message of the active conversation is appended and
   * answered with `mark_read`; any other message leaves the list alone.
   */
  function OnReceiveMessage(active: Option<nat>, list: seq<Message>, m: Message): (r: Received)
    ensures r.emitsMarkRead <==> active == Some(m.conversationId)
    ensures r.messages == if r.emitsMarkRead then list + [m] else list
  {
    if active == Some(m.conversationId) then Received(list + [m], true) else Received(list, false)
  }

  /** Sets the read flag on the messages `me` sent. */
  function MarkMine(me: nat): Message -> Message {
    (m: Message) => if m.senderId == me then m.(isRead := true) else m
  }

  /**
   * `messages_read` as written: for the active conversation, every message
   * the current user sent is marked read, whoever the reader was.
   */
  function OnMessagesRead(active: Option<nat>, list: seq<Message>, me: nat, cid: nat, readerId: nat): (r: seq<Message>)
    ensures |r| == |list|
    ensures forall k :: 0 <= k < |list| ==>
              r[k] == if active == Some(cid) && list[k].senderId == me then list[k].(isRead := true) else list[k]
  {
    if active == Some(cid) then MapAll(list, MarkMine(me)) else list
  }

  /** `messages_read` as intended: a receipt sent by the current user's own session leaves the list alone. */
  function OnMessagesReadCorrected(active: Option<nat>, list: seq<Message>, me: nat, cid: nat, readerId: nat): (r: seq<Message>)
    ensures readerId != me ==> r == OnMessagesRead(active, list, me, cid, readerId)
    ensures readerId == me ==> r == list
  {
    if active == Some(cid) && readerId != me then MapAll(list, MarkMine(me)) else list
  }

  /** Sets the unsent flag on message `mid`. */
  function Unsend(mid: nat): Message -> Message {
    (m: Message) => if m.id == mid then m.(isDeleted := true) else m
  }

  /**
   * `message_deleted`: "everyone" marks that message unsent in place;
   * "me" removes it only when the current user is the one who deleted it;
   * anything else leaves the list alone.
   */
  function OnMessageDeleted(list: seq<Message>, me: nat, mid: nat, deleteType: string, deletedFor: Option<nat>): (r: seq<Message>)
    ensures deleteType == ChatController.Everyone ==>
              |r| == |list| && forall k :: 0 <= k < |list| ==>
                r[k] == if list[k].id == mid then list[k].(isDeleted := true) else list[k]
    ensures deleteType == ChatController.Me && deletedFor == Some(me) ==>
              forall m :: m in r <==> m in list && m.id != mid
    ensures deleteType != ChatController.Everyone && (deleteType != ChatController.Me || deletedFor != Some(me)) ==>
              r == list
  {
    if deleteType == ChatController.Everyone then MapAll(list, Unsend(mid))
    else if deleteType == ChatController.Me && deletedFor == Some(me) then RemoveId(list, mid)
    else list
  }

  /** The server's "delete for me" edit of message `mid` by user `u`. */
  function ForMe(mid: nat, u: nat): Message -> Message {
    (m: Message) => if m.id == mid then m.(deletedBy := Add(m.deletedBy, u).deletedBy) else m
  }

  /** The server's read receipt of `reader` on conversation `cid`. */
  function ReadBy(cid: nat, reader: nat): Message -> Message {
    (m: Message) => if ReadTarget(m, cid, reader) then m.(isRead := true) else m
  }

  lemma UnsendAt(ms: seq<Message>, i: nat)
    requires i < |ms| && DistinctIds(ms)
    ensures ms[i := ms[i].(isDeleted := true)] == MapAll(ms, Unsend(ms[i].id))
  {
  }

  lemma ForMeAt(ms: seq<Message>, i: nat, u: nat)
    requires i < |ms| && DistinctIds(ms)
    ensures ms[i := ms[i].(deletedBy := Add(ms[i].deletedBy, u).deletedBy)] == MapAll(ms, ForMe(ms[i].id, u))
  {
  }

  lemma MarkReadIsMap(ms: seq<Message>, cid: nat, reader: nat)
    ensures MarkRead(ms, cid, reader) == MapAll(ms, ReadBy(cid, reader))
  {
  }

  /** A new message of the conversation, appended on both sides, keeps the page in agreement. */
  lemma AgreeAfterReceive(client: seq<Message>, ms: seq<Message>, cid: nat, me: nat, m: Message)
    requires Agrees(client, ms, cid, me)
    requires m.deletedBy == ""
    ensures Agrees(OnReceiveMessage(Some(cid), client, m).messages, ms + [m], cid, me)
  {
    MessagesOfAppend(ms, [m], cid);
    var old_ := MessagesOf(ms, cid);
    if m.conversationId == cid {
      assert MessagesOf([m], cid) == [m];
      TranscriptAppend(old_, [m], me);
      assert !HiddenFor(m, me);
      assert Transcript([m], me) == [m];
      ViewsAppend(client, [m], me);
      ViewsAppend(Transcript(old_, me), [m], me);
    } else {
      assert MessagesOf([m], cid) == [];
      assert old_ + [] == old_;
    }
  }

  /** Unsending a stored message and the matching `message_deleted` event keep the page in agreement. */
  lemma AgreeAfterUnsend(client: seq<Message>, ms: seq<Message>, cid: nat, me: nat, i: nat)
    requires i < |ms| && DistinctIds(ms)
    requires Agrees(client, ms, cid, me)
    ensures Agrees(OnMessageDeleted(client, me, ms[i].id, ChatController.Everyone, None),
                   ms[i := ms[i].(isDeleted := true)], cid, me)
  {
    var f := Unsend(ms[i].id);
    UnsendAt(ms, i);
    MessagesOfMap(ms, cid, f);
    var mine := MessagesOf(ms, cid);
    TranscriptMap(mine, me, f);
    var t := Transcript(mine, me);
    ViewsMap(t, me, f, f);
    ViewsMap(client, me, f, f);
  }

  /** "Delete for me" by the page's own user hides the message on the server and removes it from the page. */
  lemma AgreeAfterDeleteForMe(client: seq<Message>, ms: seq<Message>, cid: nat, me: nat, i: nat)
    requires i < |ms| && DistinctIds(ms)
    requires Agrees(client, ms, cid, me)
    ensures Agrees(OnMessageDeleted(client, me, ms[i].id, ChatController.Me, Some(me)),
                   ms[i := ms[i].(deletedBy := Add(ms[i].deletedBy, me).deletedBy)], cid, me)
  {
    var mid := ms[i].id;
    var f := ForMe(mid, me);
    ForMeAt(ms, i, me);
    MessagesOfMap(ms, cid, f);
    var mine := MessagesOf(ms, cid);
    forall k | 0 <= k < |mine| && mine[k].id == mid
      ensures HiddenFor(f(mine[k]), me)
    {
      AddListsOnlyCaller(mine[k].deletedBy, me, me);
      ListedAgree(Add(mine[k].deletedBy, me).deletedBy, me);
    }
    TranscriptHides(mine, me, f, mid);
    ViewsRemove(Transcript(mine, me), me, mid);
    ViewsRemove(client, me, mid);
  }

  /** "Delete for me" by anyone else changes nothing the page's user can see, and the event leaves the page alone. */
  lemma AgreeAfterDeleteForOther(client: seq<Message>, ms: seq<Message>, cid: nat, me: nat, caller: nat, i: nat)
    requires i < |ms| && DistinctIds(ms) && caller != me
    requires Agrees(client, ms, cid, me)
    ensures Agrees(OnMessageDeleted(client, me, ms[i].id, ChatController.Me, Some(caller)),
                   ms[i := ms[i].(deletedBy := Add(ms[i].deletedBy, caller).deletedBy)], cid, me)
  {
    var f := ForMe(ms[i].id, caller);
    ForMeAt(ms, i, caller);
    MessagesOfMap(ms, cid, f);
    var mine := MessagesOf(ms, cid);
    forall k | 0 <= k < |mine|
      ensures HiddenFor(f(mine[k]), me) <==> HiddenFor(mine[k], me)
    {
      AddListsOnlyCaller(mine[k].deletedBy, caller, me);
      ListedAgree(Add(mine[k].deletedBy, caller).deletedBy, me);
      ListedAgree(mine[k].deletedBy, me);
    }
    TranscriptMap(mine, me, f);
    ViewsMapSame(Transcript(mine, me), me, f);
  }

  /** The page's user reading any conversation changes nothing the page shows. */
  lemma AgreeAfterReadByMe(client: seq<Message>, ms: seq<Message>, cid: nat, c: nat, me: nat)
    requires Agrees(client, ms, cid, me)
    ensures Agrees(client, MarkRead(ms, c, me), cid, me)
  {
    var f := ReadBy(c, me);
    MarkReadIsMap(ms, c, me);
    MessagesOfMap(ms, cid, f);
    var mine := MessagesOf(ms, cid);
    TranscriptMap(mine, me, f);
    ViewsMapSame(Transcript(mine, me), me, f);
  }

  /** With the corrected reducer, a receipt from the other party keeps the page in agreement. */
  lemma AgreeAfterReadByOther(client: seq<Message>, ms: seq<Message>, cid: nat, me: nat, reader: nat)
    requires reader != me
    requires Agrees(client, ms, cid, me)
    ensures Agrees(OnMessagesReadCorrected(Some(cid), client, me, cid, reader), MarkRead(ms, cid, reader), cid, me)
  {
    var f := ReadBy(cid, reader);
    var g := MarkMine(me);
    MarkReadIsMap(ms, cid, reader);
    MessagesOfMap(ms, cid, f);
    var mine := MessagesOf(ms, cid);
    TranscriptMap(mine, me, f);
    var t := Transcript(mine, me);
    forall k | 0 <= k < |t| ensures View(f(t[k]), me) == g(View(t[k], me)) {
      assert t[k] in t;
    }
    ViewsMap(t, me, f, g);
    ViewsMap(client, me, g, g);
  }

  /** The corrected receipt reducer gives the same list as written whenever the reader is someone else. */
  lemma ReadReducersDifferOnlyForOwnReceipts(active: Option<nat>, list: seq<Message>, me: nat, cid: nat, readerId: nat)
    ensures OnMessagesReadCorrected(active, list, me, cid, readerId) != OnMessagesRead(active, list, me, cid, readerId) ==>
              readerId == me && active == Some(cid)
  {
  }

  /**
   * As written, a receipt the user's own second session sends (another tab
   * joining or reading the same conversation) shows the user's unread
   * message as Read although nobody else has read it.
   */
  lemma OwnReceiptShowsRead()
    ensures var m := Message(1, 7, 3, "hi", None, None, None, false, false, "", 0);
            && Agrees([m], [m], 7, 3)
            && MarkRead([m], 7, 3) == [m]
            && OnMessagesRead(Some(7), [m], 3, 7, 3) == [m.(isRead := true)]
            && !Agrees(OnMessagesRead(Some(7), [m], 3, 7, 3), MarkRead([m], 7, 3), 7, 3)
            && Agrees(OnMessagesReadCorrected(Some(7), [m], 3, 7, 3), MarkRead([m], 7, 3), 7, 3)
  {
    var m := Message(1, 7, 3, "hi", None, None, None, false, false, "", 0);
    assert MessagesOf([m], 7) == [m];
    assert !HiddenFor(m, 3);
    assert Transcript([m], 3) == [m];
    assert MarkRead([m], 7, 3)[0] == m;
    assert MarkRead([m], 7, 3) == [m];
    var c := OnMessagesRead(Some(7), [m], 3, 7, 3);
    assert c == [m.(isRead := true)];
    assert Views(c, 3)[0].isRead;
    assert !Views([m], 3)[0].isRead;
  }

  // ---------------------------------------------------------------------
  // The conversation list
  // ---------------------------------------------------------------------

  /**
   * The preview line under a conversation, or `None` when nothing is drawn:
   * the unsent placeholder, nothing for a message the user deleted for
   * themselves, otherwise the content (nothing when empty).
   */
  function PreviewText(previews: seq<Message>, me: nat, language: string): (r: Option<string>)
    ensures previews == [] ==> r.None?
    ensures previews != [] && previews[0].isDeleted ==> r == Some(UnsentText(language))
    ensures previews != [] && !previews[0].isDeleted && ListedRaw(previews[0].deletedBy, me) ==> r.None?
    ensures previews != [] && !previews[0].isDeleted && !ListedRaw(previews[0].deletedBy, me) ==>
              r == if previews[0].content == "" then None else Some(previews[0].content)
  {
    if previews == [] then None
    else
      var p := previews[0];
      var text := if p.isDeleted then UnsentText(language) else if ListedRaw(p.deletedBy, me) then "" else p.content;
      if text == "" then None else Some(text)
  }

  /** The server never sends a preview the page would blank or replace: the line is the content itself. */
  lemma ServerPreviewShowsContent(ms: seq<Message>, cid: nat, me: nat, language: string)
    ensures var p := ConversationPreview(ms, cid, me);
            PreviewText(p, me, language) == if p == [] || p[0].content == "" then None else Some(p[0].content)
  {
    var p := ConversationPreview(ms, cid, me);
    if p != [] {
      PreviewOnlyVisible(Latest(ms, cid, PreviewWindow), me, p[0]);
      ListedAgree(p[0].deletedBy, me);
    }
  }

  datatype Participant = Participant(userId: nat, name: string, email: string, profileImage: Option<string>)

  datatype ClientConversation = ClientConversation(id: nat, participants: seq<Participant>)

  /** Index of the first participant who is not `me`. */
  function FirstOther(ps: seq<Participant>, me: nat): (r: Option<nat>)
    ensures r.Some? ==> r.value < |ps| && ps[r.value].userId != me
    ensures r.Some? ==> forall j :: 0 <= j < r.value ==> ps[j].userId == me
    ensures r.None? ==> forall j :: 0 <= j < |ps| ==> ps[j].userId == me
    decreases |ps|
  {
    if |ps| == 0 then None
    else if ps[0].userId != me then Some(0)
    else match FirstOther(ps[1..], me)
      case None => None
      case Some(k) => Some(k + 1)
  }

  /** `getOtherParticipant`: the first participant who is not the current user. */
  function OtherParticipant(c: ClientConversation, me: nat): (r: Option<Participant>)
    ensures r.Some? ==> r.value in c.participants && r.value.userId != me
    ensures r.None? <==> forall p :: p in c.participants ==> p.userId == me
  {
    match FirstOther(c.participants, me)
    case None => None
    case Some(k) => Some(c.participants[k])
  }

  /** The other participant's name or email contains the query, ignoring ASCII case. */
  predicate Matches(c: ClientConversation, me: nat, query: string) {
    var other := OtherParticipant(c, me);
    other.Some? && (Contains(ToLower(other.value.name), ToLower(query)) || Contains(ToLower(other.value.email), ToLower(query)))
  }

  /** `filteredConversations`: everything for an empty query, otherwise the matches, in list order. */
  function FilterConversations(cs: seq<ClientConversation>, me: nat, query: string): (r: seq<ClientConversation>)
    ensures query == "" ==> r == cs
    ensures query != "" ==> forall c :: c in r <==> c in cs && Matches(c, me, query)
    ensures |r| <= |cs|
    decreases |cs|
  {
    if query == "" then cs
    else if |cs| == 0 then []
    else if Matches(cs[0], me, query) then [cs[0]] + FilterConversations(cs[1..], me, query)
    else FilterConversations(cs[1..], me, query)
  }

  lemma LowerCharIdempotent(c: char)
    ensures LowerChar(LowerChar(c)) == LowerChar(c)
  {
  }

  /** Lower-casing the query first changes nothing: the search is case-blind. */
  lemma {:induction false} SearchIgnoresQueryCase(cs: seq<ClientConversation>, me: nat, query: string)
    ensures FilterConversations(cs, me, ToLower(query)) == FilterConversations(cs, me, query)
    decreases |cs|
  {
    assert ToLower(ToLower(query)) == ToLower(query) by {
      forall i | 0 <= i < |query| ensures ToLower(ToLower(query))[i] == ToLower(query)[i] {
        LowerCharIdempotent(query[i]);
      }
    }
    if query != "" && |cs| > 0 {
      assert ToLower(query) != "";
      SearchIgnoresQueryCase(cs[1..], me, query);
    }
  }

  // ---------------------------------------------------------------------
  // Composing and sending
  // ---------------------------------------------------------------------

  datatype FileKind = ImageFile | VideoFile

  datatype FileChoice = NotMedia | OverLimit(kind: FileKind, max: nat) | Chosen(kind: FileKind)

  const MaxImageBytes: nat := 5 * 1024 * 1024

  /** The picker's video limit as written: 50 MiB. */
  const MaxVideoBytesAsWritten: nat := 50 * 1024 * 1024

  /** `handleFileSelect` with a given video limit: media type first, then size against its limit. */
  function SelectFile(mime: string, size: nat, maxVideo: nat): (r: FileChoice)
    ensures r.NotMedia? <==> !StartsWith(mime, "video/") && !StartsWith(mime, "image/")
    ensures !r.NotMedia? ==> r.kind == if StartsWith(mime, "video/") then VideoFile else ImageFile
    ensures r.Chosen? <==> !r.NotMedia? && size <= (if r.kind == VideoFile then maxVideo else MaxImageBytes)
  {
    var isVideo := StartsWith(mime, "video/");
    var isImage := StartsWith(mime, "image/");
    if !isVideo && !isImage then NotMedia
    else
      var kind := if isVideo then VideoFile else ImageFile;
      var max := if isVideo then maxVideo else MaxImageBytes;
      if size > max then OverLimit(kind, max) else Chosen(kind)
  }

  function FileSelect(mime: string, size: nat): FileChoice {
    SelectFile(mime, size, MaxVideoBytesAsWritten)
  }

  /** The picker with its video limit set to the upload limit the server enforces. */
  function FileSelectCorrected(mime: string, size: nat): FileChoice {
    SelectFile(mime, size, MaxUploadBytes)
  }

  /** As written, the picker takes videos the upload handler refuses for size. */
  lemma VideoLimitExceedsUploadLimit(field: string, now: nat, name: string)
    ensures MaxVideoBytesAsWritten == 52428800
    ensures FileSelect("video/mp4", 51000000) == Chosen(VideoFile)
    ensures !Upload(field, now, name, "video/mp4", 51000000).Stored?
    ensures FileSelectCorrected("video/mp4", 51000000) == OverLimit(VideoFile, MaxUploadBytes)
  {
    assert StartsWith("video/mp4", "video/");
  }

  /** With the corrected limit, whatever the picker takes fits the upload handler's limit. */
  lemma ChosenFitsUpload(mime: string, size: nat, field: string, now: nat, name: string)
    requires FileSelectCorrected(mime, size).Chosen?
    ensures size <= MaxUploadBytes
    ensures !Upload(field, now, name, mime, size).TooLarge?
  {
  }

  /** `handleSendMessage`'s guard: some text or a file, and an open conversation. */
  predicate CanSend(text: string, hasFile: bool, active: Option<nat>) {
    (Trim(text) != "" || hasFile) && active.Some?
  }

  /** Without a file, the page sends exactly what the socket handler accepts. */
  lemma SendGuardMatchesServer(text: string, cid: nat)
    ensures CanSend(text, false, Some(cid)) <==> !SendRefused(Some(text), None, None, None)
  {
    if text == "" {
      assert Trim(text) == "";
    }
  }
}
