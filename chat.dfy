/**
 * The rules of the chat ledger that do not depend on who performs them:
 * which messages a viewer sees in a transcript or a conversation preview,
 * which rows a read receipt flips, when a send is refused, and the room a
 * conversation broadcasts in. The handlers in ChatController and
 * SocketHandler apply these to the store; ChatClient applies the client's
 * side of the same events.
 */
module Chat {
  import opened Wrappers
  import opened Strings
  import opened Store
  import opened DeletedBy

  /**
   * `findFirst({id, participants: {some: {userId}}})` finds a row: the
   * conversation exists and `u` is one of its participants.
   */
  predicate Participates(cs: seq<Conversation>, cid: nat, u: nat) {
    exists i :: 0 <= i < |cs| && cs[i].id == cid && u in cs[i].participants
  }

  /** Participation is never lost when rows are appended or `updatedAt` is touched. */
  lemma ParticipationKept(cs: seq<Conversation>, cs': seq<Conversation>, cid: nat, u: nat)
    requires |cs| <= |cs'|
    requires forall i :: 0 <= i < |cs| ==> cs'[i].id == cs[i].id && cs'[i].participants == cs[i].participants
    ensures Participates(cs, cid, u) ==> Participates(cs', cid, u)
  {
    if Participates(cs, cid, u) {
      var i :| 0 <= i < |cs| && cs[i].id == cid && u in cs[i].participants;
      assert cs'[i].id == cid && u in cs'[i].participants;
    }
  }

  /** The conversation's messages, in store order. */
  function MessagesOf(ms: seq<Message>, cid: nat): (r: seq<Message>)
    ensures forall m :: m in r <==> m in ms && m.conversationId == cid
    ensures |r| <= |ms|
    decreases |ms|
  {
    if |ms| == 0 then []
    else if ms[0].conversationId == cid then [ms[0]] + MessagesOf(ms[1..], cid)
    else MessagesOf(ms[1..], cid)
  }

  /** Strictly increasing `createdAt` along the sequence */
  ghost predicate Ascending(ms: seq<Message>) {
    forall i, j :: 0 <= i < j < |ms| ==> ms[i].createdAt < ms[j].createdAt
  }

  /** Strictly decreasing `createdAt` along the sequence */
  ghost predicate Descending(ms: seq<Message>) {
    forall i, j :: 0 <= i < j < |ms| ==> ms[i].createdAt > ms[j].createdAt
  }

  /** In an ascending list the head is older than every message taken from its tail. */
  lemma HeadPrecedes(ms: seq<Message>, rest: seq<Message>)
    requires |ms| > 0 && Ascending(ms)
    requires forall m :: m in rest ==> m in ms[1..]
    ensures forall k :: 0 <= k < |rest| ==> ms[0].createdAt < rest[k].createdAt
  {
    forall k | 0 <= k < |rest| ensures ms[0].createdAt < rest[k].createdAt {
      assert rest[k] in ms[1..];
      var j :| 0 <= j < |ms[1..]| && ms[1..][j] == rest[k];
      assert ms[j + 1] == rest[k];
    }
  }

  /** Putting a message older than all others in front of an ascending list keeps it ascending. */
  lemma ConsAscending(m: Message, rest: seq<Message>)
    requires Ascending(rest)
    requires forall k :: 0 <= k < |rest| ==> m.createdAt < rest[k].createdAt
    ensures Ascending([m] + rest)
  {
    var r := [m] + rest;
    assert forall k :: 0 < k < |r| ==> r[k] == rest[k - 1];
  }

  lemma {:induction false} MessagesOfAscending(ms: seq<Message>, cid: nat)
    requires Ascending(ms)
    ensures Ascending(MessagesOf(ms, cid))
    decreases |ms|
  {
    if |ms| > 0 {
      MessagesOfAscending(ms[1..], cid);
      var rest := MessagesOf(ms[1..], cid);
      if ms[0].conversationId == cid {
        HeadPrecedes(ms, rest);
        ConsAscending(ms[0], rest);
      }
    }
  }

  /** Whether getMessages hides `m` from `viewer`: the raw split of `deletedBy` lists the viewer. */
  predicate HiddenFor(m: Message, viewer: nat) {
    ListedRaw(m.deletedBy, viewer)
  }

  /**
   * The transcript getMessages returns: every message except those the viewer
   * deleted for themselves. Unsent (`isDeleted`) messages stay in place.
   */
  function Transcript(ms: seq<Message>, viewer: nat): (r: seq<Message>)
    ensures forall m :: m in r <==> m in ms && !HiddenFor(m, viewer)
    ensures |r| <= |ms|
    decreases |ms|
  {
    if |ms| == 0 then []
    else if HiddenFor(ms[0], viewer) then Transcript(ms[1..], viewer)
    else [ms[0]] + Transcript(ms[1..], viewer)
  }

  /** The transcript of a concatenation is the concatenation of the transcripts, so order is kept. */
  lemma {:induction false} TranscriptAppend(a: seq<Message>, b: seq<Message>, viewer: nat)
    ensures Transcript(a + b, viewer) == Transcript(a, viewer) + Transcript(b, viewer)
    decreases |a|
  {
    if |a| > 0 {
      assert (a + b)[1..] == a[1..] + b;
      TranscriptAppend(a[1..], b, viewer);
    } else {
      assert a + b == b;
    }
  }

  /** A transcript of an ascending list is ascending: messages come in `createdAt` order. */
  lemma {:induction false} TranscriptAscending(ms: seq<Message>, viewer: nat)
    requires Ascending(ms)
    ensures Ascending(Transcript(ms, viewer))
    decreases |ms|
  {
    if |ms| > 0 {
      TranscriptAscending(ms[1..], viewer);
      var rest := Transcript(ms[1..], viewer);
      if !HiddenFor(ms[0], viewer) {
        HeadPrecedes(ms, rest);
        ConsAscending(ms[0], rest);
      }
    }
  }

  /** Whether `m` may be a preview for `viewer` in getConversations: not unsent and not deleted by the viewer. */
  predicate PreviewVisible(m: Message, viewer: nat) {
    !m.isDeleted && !Listed(m.deletedBy, viewer)
  }

  /** How many of the newest messages getConversations fetches per conversation */
  const PreviewWindow: nat := 10

  /** The last `n` entries of `all` (all of them when fewer), last first. */
  function Newest(all: seq<Message>, n: nat): (r: seq<Message>)
    ensures |r| == if |all| < n then |all| else n
    ensures forall i :: 0 <= i < |r| ==> r[i] == all[|all| - 1 - i]
  {
    var k := if |all| < n then |all| else n;
    var tail := all[|all| - k..];
    Reverse(tail)
  }

  /** The newest `n` messages of a conversation, newest first (`orderBy createdAt desc, take n`). */
  function Latest(ms: seq<Message>, cid: nat, n: nat): (r: seq<Message>)
    ensures |r| == if |MessagesOf(ms, cid)| < n then |MessagesOf(ms, cid)| else n
    ensures forall i :: 0 <= i < |r| ==> r[i] == MessagesOf(ms, cid)[|MessagesOf(ms, cid)| - 1 - i]
  {
    Newest(MessagesOf(ms, cid), n)
  }

  lemma LatestDescending(ms: seq<Message>, cid: nat, n: nat)
    requires Ascending(ms)
    ensures Descending(Latest(ms, cid, n))
  {
    MessagesOfAscending(ms, cid);
  }

  /** Position `k` holds the first message of `window` that `viewer` may see as a preview. */
  predicate FirstVisibleAt(window: seq<Message>, viewer: nat, k: int) {
    0 <= k < |window| && PreviewVisible(window[k], viewer)
    && forall j :: 0 <= j < k ==> !PreviewVisible(window[j], viewer)
  }

  /** The preview kept for `viewer`: the first visible message of the fetched window, or nothing. */
  function Preview(window: seq<Message>, viewer: nat): (r: seq<Message>)
    ensures |r| <= 1
    ensures r == [] <==> forall k :: 0 <= k < |window| ==> !PreviewVisible(window[k], viewer)
    ensures r != [] ==> exists k :: FirstVisibleAt(window, viewer, k) && window[k] == r[0]
    decreases |window|
  {
    if |window| == 0 then []
    else if PreviewVisible(window[0], viewer) then
      assert FirstVisibleAt(window, viewer, 0);
      [window[0]]
    else
      var r := Preview(window[1..], viewer);
      assert r != [] ==> exists k :: FirstVisibleAt(window, viewer, k) && window[k] == r[0] by {
        if r != [] {
          var k :| FirstVisibleAt(window[1..], viewer, k) && window[1..][k] == r[0];
          forall j | 0 <= j < k + 1 ensures !PreviewVisible(window[j], viewer) {
            if j > 0 { assert window[j] == window[1..][j - 1]; }
          }
          assert FirstVisibleAt(window, viewer, k + 1);
        }
      }
      assert r == [] ==> forall k :: 0 <= k < |window| ==> !PreviewVisible(window[k], viewer) by {
        if r == [] {
          forall k | 0 <= k < |window| ensures !PreviewVisible(window[k], viewer) {
            if k > 0 { assert window[k] == window[1..][k - 1]; }
          }
        }
      }
      r
  }

  /** Whatever the preview holds is visible to the viewer. */
  lemma PreviewOnlyVisible(window: seq<Message>, viewer: nat, m: Message)
    requires m in Preview(window, viewer)
    ensures PreviewVisible(m, viewer)
  {
    var r := Preview(window, viewer);
    var k :| FirstVisibleAt(window, viewer, k) && window[k] == r[0];
  }

  /** A conversation's preview for `viewer` as getConversations computes it. */
  function ConversationPreview(ms: seq<Message>, cid: nat, viewer: nat): seq<Message> {
    Preview(Latest(ms, cid, PreviewWindow), viewer)
  }

  /**
   * A message the viewer deleted for themselves is in neither their transcript
   * nor their preview, and stays in the transcript of anyone who has not.
   */
  lemma DeletedForMeOnly(ms: seq<Message>, cid: nat, m: Message, viewer: nat, other: nat)
    requires m in ms && m.conversationId == cid
    requires ListedRaw(m.deletedBy, viewer) && !ListedRaw(m.deletedBy, other)
    ensures m !in Transcript(MessagesOf(ms, cid), viewer)
    ensures m !in ConversationPreview(ms, cid, viewer)
    ensures m in Transcript(MessagesOf(ms, cid), other)
  {
    ListedAgree(m.deletedBy, viewer);
    if m in ConversationPreview(ms, cid, viewer) {
      PreviewOnlyVisible(Latest(ms, cid, PreviewWindow), viewer, m);
    }
  }

  /** An unsent message stays in the transcript of every viewer who has not deleted it for themselves. */
  lemma UnsentStaysInTranscript(ms: seq<Message>, cid: nat, m: Message, viewer: nat)
    requires m in ms && m.conversationId == cid && m.isDeleted
    requires !ListedRaw(m.deletedBy, viewer)
    ensures m in Transcript(MessagesOf(ms, cid), viewer)
  {
  }

  /** An unsent message is never a preview. */
  lemma UnsentNeverPreview(ms: seq<Message>, cid: nat, m: Message, viewer: nat)
    requires m.isDeleted
    ensures m !in ConversationPreview(ms, cid, viewer)
  {
    if m in ConversationPreview(ms, cid, viewer) {
      PreviewOnlyVisible(Latest(ms, cid, PreviewWindow), viewer, m);
    }
  }

  /** The newest `PreviewWindow` messages of `all` are unsent. */
  ghost predicate NewestUnsent(all: seq<Message>) {
    forall k :: 0 <= k < |all| && |all| - PreviewWindow <= k ==> all[k].isDeleted
  }

  /** When the newest `PreviewWindow` messages are all unsent, the preview is empty, whatever older messages hold. */
  lemma WindowOfUnsentHasNoPreview(ms: seq<Message>, cid: nat, viewer: nat)
    requires NewestUnsent(MessagesOf(ms, cid))
    ensures ConversationPreview(ms, cid, viewer) == []
  {
    var all := MessagesOf(ms, cid);
    var w := Latest(ms, cid, PreviewWindow);
    forall k | 0 <= k < |w| ensures !PreviewVisible(w[k], viewer) {
      var i := |all| - 1 - k;
      assert w[k] == all[i];
      assert |all| - PreviewWindow <= i;
    }
  }

  /**
   * A visible message followed by ten unsent ones in the same conversation
   * gives no preview: only the newest ten are fetched before the filter.
   */
  lemma PreviewIgnoresOlderVisible(first: Message, run: seq<Message>, cid: nat, viewer: nat)
    requires first.conversationId == cid && PreviewVisible(first, viewer)
    requires |run| == PreviewWindow
    requires forall k :: 0 <= k < |run| ==> run[k].conversationId == cid && run[k].isDeleted
    ensures first in MessagesOf([first] + run, cid)
    ensures ConversationPreview([first] + run, cid, viewer) == []
  {
    var ms := [first] + run;
    forall k | 0 <= k < |ms| ensures ms[k].conversationId == cid {
      if k > 0 { assert ms[k] == run[k - 1]; }
    }
    MessagesOfAll(ms, cid);
    forall k | 0 <= k < |ms| && |ms| - PreviewWindow <= k ensures ms[k].isDeleted {
      assert ms[k] == run[k - 1];
    }
    WindowOfUnsentHasNoPreview(ms, cid, viewer);
  }

  lemma {:induction false} MessagesOfAll(ms: seq<Message>, cid: nat)
    requires forall k :: 0 <= k < |ms| ==> ms[k].conversationId == cid
    ensures MessagesOf(ms, cid) == ms
    decreases |ms|
  {
    if |ms| > 0 {
      assert forall k :: 0 <= k < |ms[1..]| ==> ms[1..][k].conversationId == cid by {
        forall k | 0 <= k < |ms[1..]| ensures ms[1..][k].conversationId == cid {
          assert ms[1..][k] == ms[k + 1];
        }
      }
      MessagesOfAll(ms[1..], cid);
      assert [ms[0]] + ms[1..] == ms;
    }
  }

  /** The rows a read receipt by `reader` flips: unread messages of the conversation sent by someone else. */
  predicate ReadTarget(m: Message, cid: nat, reader: nat) {
    m.conversationId == cid && m.senderId != reader && !m.isRead
  }

  /** `updateMany({conversationId, senderId: {not: reader}, isRead: false}, {isRead: true})` */
  function MarkRead(ms: seq<Message>, cid: nat, reader: nat): (r: seq<Message>)
    ensures |r| == |ms|
    ensures forall i :: 0 <= i < |ms| ==>
              r[i] == if ReadTarget(ms[i], cid, reader) then ms[i].(isRead := true) else ms[i]
  {
    seq(|ms|, i requires 0 <= i < |ms| =>
      if ReadTarget(ms[i], cid, reader) then ms[i].(isRead := true) else ms[i])
  }

  /** A second read receipt changes nothing: afterwards no row is a target any more. */
  lemma MarkReadIdempotent(ms: seq<Message>, cid: nat, reader: nat)
    ensures MarkRead(MarkRead(ms, cid, reader), cid, reader) == MarkRead(ms, cid, reader)
    ensures forall i :: 0 <= i < |ms| ==> !ReadTarget(MarkRead(ms, cid, reader)[i], cid, reader)
  {
  }

  /** Read receipts only ever set `isRead`; keys, order and every other field stay. */
  lemma MarkReadOnlyFlag(ms: seq<Message>, cid: nat, reader: nat)
    ensures forall i :: 0 <= i < |ms| ==> MarkRead(ms, cid, reader)[i].(isRead := ms[i].isRead) == ms[i]
    ensures forall i :: 0 <= i < |ms| ==> ms[i].isRead ==> MarkRead(ms, cid, reader)[i].isRead
  {
  }

  /**
   * send_message refuses a message with no text (absent or white space only)
   * and no image, video or product.
   */
  predicate SendRefused(content: Option<string>, image: Option<string>, video: Option<string>, productId: Option<nat>) {
    (!TruthyStr(content) || Trim(content.value) == "") && !TruthyStr(image) && !TruthyStr(video) && !TruthyNat(productId)
  }

  /** A send goes through exactly when one of text, image, video or product is present. */
  lemma SendAcceptedWhenSomethingPresent(content: Option<string>, image: Option<string>, video: Option<string>, productId: Option<nat>)
    ensures !SendRefused(content, image, video, productId) <==>
              (content.Some? && exists i :: 0 <= i < |content.value| && !IsJsSpace(content.value[i]))
              || TruthyStr(image) || TruthyStr(video) || TruthyNat(productId)
  {
  }

  /** `value || null` for an optional string */
  function OrNull(s: Option<string>): (r: Option<string>)
    ensures r.Some? <==> TruthyStr(s)
    ensures r.Some? ==> r == s
  {
    if TruthyStr(s) then s else None
  }

  /** The room a conversation broadcasts in: `conversation_<id>`. */
  function RoomName(cid: nat): (r: string)
    ensures StartsWith(r, "conversation_")
  {
    "conversation_" + NatToString(cid)
  }

  /** Distinct conversations never share a room. */
  lemma RoomNameInjective(a: nat, b: nat)
    ensures RoomName(a) == RoomName(b) ==> a == b
  {
    var p := "conversation_";
    if RoomName(a) == RoomName(b) {
      assert NatToString(a) == RoomName(a)[|p|..];
      assert NatToString(b) == RoomName(b)[|p|..];
      NatToStringInjective(a, b);
    }
  }
}
