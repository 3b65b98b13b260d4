/**
 * The relational store the controllers query: one table per entity, each kept
 * as an in-memory sequence in insertion order. `clock` stands for the
 * server's `new Date()` (it only ever grows) and `nextId` for the
 * autoincrement key generator (one counter shared by every table).
 */
module Store {
  import opened Wrappers

  datatype User = User(
    id: nat, name: string, email: string, password: string,
    role: string, profileImage: string, createdAt: nat)

  /** A conversation with its participant rows (user ids, one per row). */
  datatype Conversation = Conversation(id: nat, participants: seq<nat>, createdAt: nat, updatedAt: nat)

  /**
   * A chat message. `deletedBy` is the comma-delimited list of the ids of
   * the users who deleted it for themselves; `""` stands for a null field.
   */
  datatype Message = Message(
    id: nat, conversationId: nat, senderId: nat, content: string,
    image: Option<string>, video: Option<string>, productId: Option<nat>,
    isRead: bool, isDeleted: bool, deletedBy: string, createdAt: nat)

  /** The product `images` column once its JSON text is decoded: null, a plain string, or a list. */
  datatype Images = NoImages | Single(path: string) | List(paths: seq<string>)

  datatype Product = Product(
    id: nat, title: string, description: string, ownerId: nat, status: string,
    images: Images, video: Option<string>, categoryId: Option<nat>, createdAt: nat)

  datatype AddressInfo = AddressInfo(
    fullName: string, phoneNumber: string, addressLine1: string, addressLine2: string,
    subdistrict: string, district: string, province: string, zipCode: string)

  datatype Address = Address(id: nat, userId: nat, info: AddressInfo, isDefault: bool)

  const PendingApproval := "PENDING_APPROVAL"
  const Available := "available"
  const Exchanged := "exchanged"
  const Cancelled := "cancelled"
  const AdminRole := "ADMIN"
  const UserRole := "USER"

  /** Index of the first message with key `id`, as `findUnique` looks it up. */
  function FindMessage(ms: seq<Message>, id: nat): (r: Option<nat>)
    ensures r.Some? ==> r.value < |ms| && ms[r.value].id == id
    ensures r.Some? ==> forall j :: 0 <= j < r.value ==> ms[j].id != id
    ensures r.None? ==> forall j :: 0 <= j < |ms| ==> ms[j].id != id
    decreases |ms|
  {
    if |ms| == 0 then None
    else if ms[0].id == id then Some(0)
    else match FindMessage(ms[1..], id)
      case None => None
      case Some(k) => Some(k + 1)
  }

  function FindConversation(cs: seq<Conversation>, id: nat): (r: Option<nat>)
    ensures r.Some? ==> r.value < |cs| && cs[r.value].id == id
    ensures r.None? ==> forall j :: 0 <= j < |cs| ==> cs[j].id != id
    decreases |cs|
  {
    if |cs| == 0 then None
    else if cs[0].id == id then Some(0)
    else match FindConversation(cs[1..], id)
      case None => None
      case Some(k) => Some(k + 1)
  }

  function FindProduct(ps: seq<Product>, id: nat): (r: Option<nat>)
    ensures r.Some? ==> r.value < |ps| && ps[r.value].id == id
    ensures r.None? ==> forall j :: 0 <= j < |ps| ==> ps[j].id != id
    decreases |ps|
  {
    if |ps| == 0 then None
    else if ps[0].id == id then Some(0)
    else match FindProduct(ps[1..], id)
      case None => None
      case Some(k) => Some(k + 1)
  }

  function FindAddress(as_: seq<Address>, id: nat): (r: Option<nat>)
    ensures r.Some? ==> r.value < |as_| && as_[r.value].id == id
    ensures r.None? ==> forall j :: 0 <= j < |as_| ==> as_[j].id != id
    decreases |as_|
  {
    if |as_| == 0 then None
    else if as_[0].id == id then Some(0)
    else match FindAddress(as_[1..], id)
      case None => None
      case Some(k) => Some(k + 1)
  }

  function FindUser(us: seq<User>, id: nat): (r: Option<nat>)
    ensures r.Some? ==> r.value < |us| && us[r.value].id == id
    ensures r.None? ==> forall j :: 0 <= j < |us| ==> us[j].id != id
    decreases |us|
  {
    if |us| == 0 then None
    else if us[0].id == id then Some(0)
    else match FindUser(us[1..], id)
      case None => None
      case Some(k) => Some(k + 1)
  }

  /** Messages have distinct keys and are stored in strictly increasing `createdAt` order. */
  ghost predicate MessagesWellFormed(ms: seq<Message>, nextId: nat, clock: nat) {
    && (forall i :: 0 <= i < |ms| ==> ms[i].id < nextId && ms[i].createdAt < clock)
    && (forall i, j :: 0 <= i < j < |ms| ==> ms[i].id != ms[j].id && ms[i].createdAt < ms[j].createdAt)
  }

  /** Products have distinct keys and are stored in strictly increasing `createdAt` order. */
  ghost predicate ProductsWellFormed(ps: seq<Product>, nextId: nat, clock: nat) {
    && (forall i :: 0 <= i < |ps| ==> ps[i].id < nextId && ps[i].createdAt < clock)
    && (forall i, j :: 0 <= i < j < |ps| ==> ps[i].id != ps[j].id && ps[i].createdAt < ps[j].createdAt)
  }

  ghost predicate ConversationsWellFormed(cs: seq<Conversation>, nextId: nat, clock: nat) {
    && (forall i :: 0 <= i < |cs| ==> cs[i].id < nextId && cs[i].updatedAt < clock)
    && (forall i, j :: 0 <= i < j < |cs| ==> cs[i].id != cs[j].id)
  }

  ghost predicate AddressesWellFormed(as_: seq<Address>, nextId: nat) {
    && (forall i :: 0 <= i < |as_| ==> as_[i].id < nextId)
    && (forall i, j :: 0 <= i < j < |as_| ==> as_[i].id != as_[j].id)
  }

  ghost predicate UsersWellFormed(us: seq<User>) {
    forall i, j :: 0 <= i < j < |us| ==> us[i].id != us[j].id
  }

  /** A table read backwards: `orderBy: {createdAt: 'desc'}` over a table kept oldest first. */
  function Reverse<T>(s: seq<T>): (r: seq<T>)
    ensures |r| == |s| && forall i :: 0 <= i < |s| ==> r[i] == s[|s| - 1 - i]
    decreases |s|
  {
    if |s| == 0 then [] else Reverse(s[1..]) + [s[0]]
  }

  /** A later `nextId` and clock keep a message table well formed. */
  lemma MessagesGrow(ms: seq<Message>, n: nat, c: nat, n': nat, c': nat)
    requires MessagesWellFormed(ms, n, c) && n <= n' && c <= c'
    ensures MessagesWellFormed(ms, n', c')
  {
  }

  /** Appending a row with a fresh key and a later time keeps the message table well formed. */
  lemma MessagesAppend(ms: seq<Message>, m: Message, n: nat, c: nat)
    requires MessagesWellFormed(ms, n, c) && n <= m.id && c <= m.createdAt
    ensures MessagesWellFormed(ms + [m], m.id + 1, m.createdAt + 1)
  {
  }

  /** Editing rows in place, keys and times kept, keeps the message table well formed. */
  lemma MessagesEdited(ms: seq<Message>, ms': seq<Message>, n: nat, c: nat)
    requires MessagesWellFormed(ms, n, c) && |ms'| == |ms|
    requires forall i :: 0 <= i < |ms| ==> ms'[i].id == ms[i].id && ms'[i].createdAt == ms[i].createdAt
    ensures MessagesWellFormed(ms', n, c)
  {
  }

  lemma ProductsGrow(ps: seq<Product>, n: nat, c: nat, n': nat, c': nat)
    requires ProductsWellFormed(ps, n, c) && n <= n' && c <= c'
    ensures ProductsWellFormed(ps, n', c')
  {
  }

  /** Editing rows in place, keys and times kept, keeps the product table well formed. */
  lemma ProductsEdited(ps: seq<Product>, ps': seq<Product>, n: nat, c: nat)
    requires ProductsWellFormed(ps, n, c) && |ps'| == |ps|
    requires forall i :: 0 <= i < |ps| ==> ps'[i].id == ps[i].id && ps'[i].createdAt == ps[i].createdAt
    ensures ProductsWellFormed(ps', n, c)
  {
  }

  /** Removing one row keeps the product table well formed. */
  lemma ProductsRemoved(ps: seq<Product>, i: nat, n: nat, c: nat)
    requires ProductsWellFormed(ps, n, c) && i < |ps|
    ensures ProductsWellFormed(ps[..i] + ps[i + 1..], n, c)
  {
    var r := ps[..i] + ps[i + 1..];
    assert forall k :: 0 <= k < |r| ==> r[k] == if k < i then ps[k] else ps[k + 1];
  }

  lemma ConversationsGrow(cs: seq<Conversation>, n: nat, c: nat, n': nat, c': nat)
    requires ConversationsWellFormed(cs, n, c) && n <= n' && c <= c'
    ensures ConversationsWellFormed(cs, n', c')
  {
  }

  lemma AddressesGrow(as_: seq<Address>, n: nat, n': nat)
    requires AddressesWellFormed(as_, n) && n <= n'
    ensures AddressesWellFormed(as_, n')
  {
  }

  /** Removing one user keeps the keys distinct and keeps every other user. */
  lemma UsersRemoved(us: seq<User>, i: nat)
    requires UsersWellFormed(us) && i < |us|
    ensures UsersWellFormed(us[..i] + us[i + 1..])
    ensures forall u :: u in us && u != us[i] ==> u in us[..i] + us[i + 1..]
  {
    var r := us[..i] + us[i + 1..];
    assert forall k :: 0 <= k < |r| ==> r[k] == if k < i then us[k] else us[k + 1];
    forall u | u in us && u != us[i] ensures u in r {
      var j :| 0 <= j < |us| && us[j] == u;
      if j < i { assert r[j] == u; } else { assert r[j - 1] == u; }
    }
  }

  class Db {
    var users: seq<User>
    var conversations: seq<Conversation>
    var messages: seq<Message>
    var products: seq<Product>
    var addresses: seq<Address>
    var clock: nat
    var nextId: nat

    /** Every table has distinct keys below `nextId`; timestamps are below `clock`. */
    ghost predicate Valid()
      reads this
    {
      && UsersWellFormed(users)
      && ConversationsWellFormed(conversations, nextId, clock)
      && MessagesWellFormed(messages, nextId, clock)
      && ProductsWellFormed(products, nextId, clock)
      && AddressesWellFormed(addresses, nextId)
    }

    /** Writes row `i` of the message table in place, key and time kept. */
    method SetMessage(i: nat, m: Message)
      requires Valid() && i < |messages|
      requires m.id == messages[i].id && m.createdAt == messages[i].createdAt
      modifies this`messages
      ensures messages == old(messages)[i := m]
      ensures Valid()
    {
      MessagesEdited(messages, messages[i := m], nextId, clock);
      messages := messages[i := m];
    }

    constructor (initialUsers: seq<User>)
      requires UsersWellFormed(initialUsers)
      ensures Valid()
      ensures users == initialUsers && conversations == [] && messages == []
      ensures products == [] && addresses == []
    {
      users := initialUsers;
      conversations, messages, products, addresses := [], [], [], [];
      clock, nextId := 0, 0;
    }
  }
}
