/**
 * The `deletedBy` column of a message: the ids of the users who deleted the
 * message for themselves, written as decimal numbers joined with ','.
 * Readers split on ',' (getConversations also drops empty pieces); the
 * "delete for me" handler decodes, appends the caller's id when it is
 * absent, and encodes again.
 */
module DeletedBy {
  import opened Strings

  const Sep: char := ','

  /** `userId.toString()` */
  function IdText(u: nat): (r: string)
    ensures r != "" && Free(r, Sep)
  {
    NatToString(u)
  }

  /** `deletedBy.split(',').filter(Boolean)`: the listed ids, in order. */
  function Tokens(s: string): (r: seq<string>)
    ensures forall k :: 0 <= k < |r| ==> r[k] != "" && Free(r[k], Sep)
  {
    var parts := Split(s, Sep);
    SplitPiecesFree(s, Sep);
    var r := NonEmpty(parts);
    assert forall k :: 0 <= k < |r| ==> r[k] in parts;
    r
  }

  /** `ids.join(',')` */
  function Encode(ids: seq<string>): string {
    Join(ids, Sep)
  }

  /** A list of ids the codec can carry: no empty entry and no separator inside an entry. */
  predicate Encodable(ids: seq<string>) {
    forall k :: 0 <= k < |ids| ==> ids[k] != "" && Free(ids[k], Sep)
  }

  /** Round trip: decoding an encoded list gives the list back. */
  lemma EncodeThenTokens(ids: seq<string>)
    requires Encodable(ids)
    ensures Tokens(Encode(ids)) == ids
  {
    if |ids| == 0 {
      assert Split("", Sep) == [""];
      assert NonEmpty([""]) == NonEmpty([""][1..]) == [];
    } else {
      SplitJoin(ids, Sep);
      NonEmptyKeeps(ids);
    }
  }

  /** Re-encoding what was decoded keeps every listed id, in order (empty pieces and stray commas are dropped). */
  lemma TokensThenEncode(s: string)
    ensures Tokens(Encode(Tokens(s))) == Tokens(s)
  {
    EncodeThenTokens(Tokens(s));
  }

  /** The test getMessages and the conversation list of the client apply: the raw pieces include the id. */
  predicate ListedRaw(s: string, u: nat) {
    s != "" && IdText(u) in Split(s, Sep)
  }

  /** The test getConversations applies: the non-empty pieces include the id. */
  predicate Listed(s: string, u: nat) {
    s != "" && IdText(u) in Tokens(s)
  }

  /** Whether the empty pieces are dropped or not makes no difference to either test. */
  lemma ListedAgree(s: string, u: nat)
    ensures ListedRaw(s, u) <==> Listed(s, u)
  {
  }

  /** The outcome of "delete for me": whether the column is written, and its value afterwards. */
  datatype AddOutcome = AddOutcome(written: bool, deletedBy: string)

  /** The "delete for me" update of the column for user `u`. */
  function Add(s: string, u: nat): (r: AddOutcome)
    ensures !r.written ==> r.deletedBy == s
    ensures r.written <==> !Listed(s, u)
  {
    var ids := Tokens(s);
    if IdText(u) in ids then AddOutcome(false, s)
    else AddOutcome(true, Encode(ids + [IdText(u)]))
  }

  /** After "delete for me" the listed ids are the earlier ones, in order, followed by the caller's id if it was not there. */
  lemma AddTokens(s: string, u: nat)
    ensures Tokens(Add(s, u).deletedBy) == if Listed(s, u) then Tokens(s) else Tokens(s) + [IdText(u)]
  {
    if !Listed(s, u) {
      EncodeThenTokens(Tokens(s) + [IdText(u)]);
    }
  }

  /** After "delete for me" the caller is listed, and for every other user the answer is as before. */
  lemma AddListsOnlyCaller(s: string, u: nat, w: nat)
    ensures Listed(Add(s, u).deletedBy, u)
    ensures w != u ==> (Listed(Add(s, u).deletedBy, w) <==> Listed(s, w))
  {
    AddTokens(s, u);
    NatToStringInjective(u, w);
    var r := Add(s, u).deletedBy;
    if !Listed(s, u) {
      assert IdText(u) in Tokens(r);
      assert r != "";
    }
  }

  /** A repeated "delete for me" by the same user writes nothing. */
  lemma AddIdempotent(s: string, u: nat)
    ensures !Add(Add(s, u).deletedBy, u).written
  {
    AddListsOnlyCaller(s, u, u);
  }
}
