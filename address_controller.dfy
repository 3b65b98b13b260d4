/**
 * The shipping addresses of a user and the "default address" flag. The
 * handlers keep at most one default address per user: setting a default
 * first clears the user's other defaults, and a user's first address is
 * always made the default.
 */
module AddressController {
  import opened Wrappers
  import opened Store

  /** No user has two addresses flagged as default. */
  predicate AtMostOneDefault(as_: seq<Address>) {
    forall i, j :: 0 <= i < j < |as_| && as_[i].userId == as_[j].userId ==> !(as_[i].isDefault && as_[j].isDefault)
  }

  predicate HasAddress(as_: seq<Address>, u: nat) {
    exists i :: 0 <= i < |as_| && as_[i].userId == u
  }

  /** The caller's addresses with the given default flag, in stored order. */
  function Owned(as_: seq<Address>, u: nat, isDefault: bool): (r: seq<Address>)
    ensures forall a :: a in r <==> a in as_ && a.userId == u && a.isDefault == isDefault
    decreases |as_|
  {
    if |as_| == 0 then []
    else if as_[0].userId == u && as_[0].isDefault == isDefault then [as_[0]] + Owned(as_[1..], u, isDefault)
    else Owned(as_[1..], u, isDefault)
  }

  /** All of the caller's addresses, in stored order. */
  function AllOwned(as_: seq<Address>, u: nat): (r: seq<Address>)
    ensures forall a :: a in r <==> a in as_ && a.userId == u
    decreases |as_|
  {
    if |as_| == 0 then []
    else if as_[0].userId == u then [as_[0]] + AllOwned(as_[1..], u)
    else AllOwned(as_[1..], u)
  }

  /**
   * getAddresses: the caller's addresses, default ones first
   * (`orderBy isDefault desc`; ties in stored order).
   */
  function GetAddresses(as_: seq<Address>, caller: nat): (r: seq<Address>)
    ensures forall a :: a in r <==> a in as_ && a.userId == caller
    ensures forall i, j :: 0 <= i < j < |r| ==> r[i].isDefault || !r[j].isDefault
  {
    var d := Owned(as_, caller, true);
    var n := Owned(as_, caller, false);
    assert forall i :: 0 <= i < |d| ==> d[i] in d;
    assert forall j :: 0 <= j < |n| ==> n[j] in n;
    d + n
  }

  /** The listing holds each of the caller's addresses as many times as the table does. */
  lemma {:induction false} GetAddressesIsPermutation(as_: seq<Address>, caller: nat)
    ensures multiset(GetAddresses(as_, caller)) == multiset(AllOwned(as_, caller))
    decreases |as_|
  {
    if |as_| > 0 {
      GetAddressesIsPermutation(as_[1..], caller);
      var a := as_[0];
      var d := Owned(as_[1..], caller, true);
      var n := Owned(as_[1..], caller, false);
      if a.userId == caller {
        if a.isDefault {
          assert GetAddresses(as_, caller) == [a] + d + n;
        } else {
          assert GetAddresses(as_, caller) == d + ([a] + n);
        }
        assert AllOwned(as_, caller) == [a] + AllOwned(as_[1..], caller);
      }
    }
  }

  /** getAddressById: found only when the address exists and belongs to the caller. */
  function FindOwnAddress(as_: seq<Address>, caller: nat, id: nat): (r: Option<nat>)
    ensures r.Some? ==> r.value < |as_| && as_[r.value].id == id && as_[r.value].userId == caller
    ensures r.None? <==> forall j :: 0 <= j < |as_| ==> !(as_[j].id == id && as_[j].userId == caller)
    decreases |as_|
  {
    if |as_| == 0 then None
    else if as_[0].id == id && as_[0].userId == caller then Some(0)
    else match FindOwnAddress(as_[1..], caller, id)
      case None => None
      case Some(k) => Some(k + 1)
  }

  function GetAddressById(as_: seq<Address>, caller: nat, id: nat): (r: (Status, Option<Address>))
    ensures r.0 == Ok <==> r.1.Some?
    ensures r.0 == Ok || r.0 == NotFound
    ensures r.1.Some? ==> r.1.value in as_ && r.1.value.id == id && r.1.value.userId == caller
    ensures r.0 == NotFound <==> forall a :: a in as_ ==> !(a.id == id && a.userId == caller)
  {
    match FindOwnAddress(as_, caller, id)
    case None => (NotFound, None)
    case Some(k) => (Ok, Some(as_[k]))
  }

  /** Someone else's address is answered exactly as if it did not exist. */
  lemma ForeignAddressLooksMissing(as_: seq<Address>, caller: nat, k: nat)
    requires k < |as_| && as_[k].userId != caller
    ensures GetAddressById(as_, caller, as_[k].id) == GetAddressById(as_[..k] + as_[k + 1..], caller, as_[k].id)
  {
    FindOwnFirst(as_, caller, k);
  }

  /** Removing an address that does not match the lookup does not change where the lookup lands. */
  lemma {:induction false} FindOwnFirst(as_: seq<Address>, caller: nat, k: nat)
    requires k < |as_| && as_[k].userId != caller
    ensures var f := FindOwnAddress(as_, caller, as_[k].id);
            var g := FindOwnAddress(as_[..k] + as_[k + 1..], caller, as_[k].id);
            (f.None? <==> g.None?) && (f.Some? ==> as_[f.value] == (as_[..k] + as_[k + 1..])[g.value])
    decreases |as_|
  {
    var id := as_[k].id;
    var rest := as_[..k] + as_[k + 1..];
    if k == 0 {
      assert rest == as_[1..];
    } else {
      assert rest[0] == as_[0];
      assert rest[1..] == as_[1..][..k - 1] + as_[1..][k..];
      FindOwnFirst(as_[1..], caller, k - 1);
    }
  }

  /** `updateMany({userId: u, id: {not: except}}, {isDefault: false})` */
  function ClearDefaults(as_: seq<Address>, u: nat, except: Option<nat>): (r: seq<Address>)
    ensures |r| == |as_|
    ensures forall i :: 0 <= i < |as_| ==>
              r[i] == if as_[i].userId == u && except != Some(as_[i].id) then as_[i].(isDefault := false) else as_[i]
  {
    seq(|as_|, i requires 0 <= i < |as_| =>
      if as_[i].userId == u && except != Some(as_[i].id) then as_[i].(isDefault := false) else as_[i])
  }

  /**
   * Appending a fresh row of the caller, after clearing the caller's
   * defaults when it is to be the default, keeps keys distinct and at most
   * one default per user; a new default is then the caller's only one.
   */
  lemma CreateKeeps(as_: seq<Address>, created: Address, isDefault: bool, n: nat)
    requires AddressesWellFormed(as_, n) && created.id == n
    requires created.isDefault == (isDefault || !HasAddress(as_, created.userId))
    ensures var r := (if isDefault then ClearDefaults(as_, created.userId, None) else as_) + [created];
      && AddressesWellFormed(r, n + 1)
      && (AtMostOneDefault(as_) ==> AtMostOneDefault(r))
      && (created.isDefault ==> forall a :: a in r && a.userId == created.userId && a.isDefault ==> a == created)
  {
    var caller := created.userId;
    var cleared := if isDefault then ClearDefaults(as_, caller, None) else as_;
    var r := cleared + [created];
    assert forall i :: 0 <= i < |as_| ==> cleared[i].id == as_[i].id && cleared[i].userId == as_[i].userId;
    if created.isDefault {
      assert !isDefault ==> forall i :: 0 <= i < |as_| ==> as_[i].userId != caller;
      assert forall i :: 0 <= i < |cleared| && cleared[i].userId == caller ==> !cleared[i].isDefault;
      assert forall a :: a in r ==> a in cleared || a == created;
    }
  }

  /**
   * createAddress: when the new address is to be the default, the caller's
   * other defaults are cleared first; the first address of a user is made
   * the default even when not asked for.
   */
  method CreateAddress(db: Db, caller: nat, info: AddressInfo, isDefault: bool) returns (status: Status, created: Address)
    requires db.Valid()
    modifies db`addresses, db`nextId
    ensures db.Valid()
    ensures status == Created
    ensures created == Address(old(db.nextId), caller, info, isDefault || !HasAddress(old(db.addresses), caller))
    ensures db.addresses == (if isDefault then ClearDefaults(old(db.addresses), caller, None) else old(db.addresses)) + [created]
    ensures db.nextId == old(db.nextId) + 1
    ensures AtMostOneDefault(old(db.addresses)) ==> AtMostOneDefault(db.addresses)
    ensures created.isDefault ==> forall a :: a in db.addresses && a.userId == caller && a.isDefault ==> a == created
  {
    var as_ := db.addresses;
    if isDefault {
      as_ := ClearDefaults(as_, caller, None);
    }
    created := Address(db.nextId, caller, info, isDefault || !HasAddress(db.addresses, caller));
    CreateKeeps(db.addresses, created, isDefault, db.nextId);
    db.addresses, db.nextId := as_ + [created], db.nextId + 1;
    status := Created;
  }

  /** The fields of an update; `None` stands for a field the request leaves out, which Prisma then does not write. */
  datatype InfoPatch = InfoPatch(
    fullName: Option<string>, phoneNumber: Option<string>, addressLine1: Option<string>,
    addressLine2: Option<string>, subdistrict: Option<string>, district: Option<string>,
    province: Option<string>, zipCode: Option<string>)

  function Pick<T>(o: Option<T>, current: T): T {
    if o.Some? then o.value else current
  }

  function ApplyPatch(info: AddressInfo, p: InfoPatch): (r: AddressInfo)
    ensures p.fullName.Some? ==> r.fullName == p.fullName.value
    ensures p.fullName.None? ==> r.fullName == info.fullName
    ensures p.zipCode.Some? ==> r.zipCode == p.zipCode.value
    ensures p.zipCode.None? ==> r.zipCode == info.zipCode
  {
    AddressInfo(
      Pick(p.fullName, info.fullName), Pick(p.phoneNumber, info.phoneNumber),
      Pick(p.addressLine1, info.addressLine1), Pick(p.addressLine2, info.addressLine2),
      Pick(p.subdistrict, info.subdistrict), Pick(p.district, info.district),
      Pick(p.province, info.province), Pick(p.zipCode, info.zipCode))
  }

  /**
   * Writing row `i` of the caller, after clearing the caller's other defaults
   * when it becomes the default, keeps keys, leaves other users' rows alone
   * and keeps at most one default per user.
   */
  lemma UpdateKeeps(as_: seq<Address>, i: nat, caller: nat, a': Address, makeDefault: bool, n: nat)
    requires i < |as_| && as_[i].userId == caller && a'.id == as_[i].id && a'.userId == caller
    requires AddressesWellFormed(as_, n)
    requires !makeDefault && a'.isDefault ==> as_[i].isDefault
    ensures var r := (if makeDefault then ClearDefaults(as_, caller, Some(as_[i].id)) else as_)[i := a'];
      && AddressesWellFormed(r, n)
      && (forall j :: 0 <= j < |as_| && as_[j].userId != caller ==> r[j] == as_[j])
      && (AtMostOneDefault(as_) ==> AtMostOneDefault(r))
  {
    var cleared := if makeDefault then ClearDefaults(as_, caller, Some(as_[i].id)) else as_;
    var r := cleared[i := a'];
    assert forall j :: 0 <= j < |as_| ==> r[j].id == as_[j].id;
    if AtMostOneDefault(as_) {
      forall p, q | 0 <= p < q < |r| && r[p].userId == r[q].userId
        ensures !(r[p].isDefault && r[q].isDefault)
      {
        if makeDefault && p != i && q != i && r[p].userId == caller {
          assert !r[p].isDefault;
        }
      }
    }
  }

  /**
   * updateAddress: 404 for a missing address, 401 for someone else's, and
   * neither writes. Setting the default clears the flag on the caller's
   * other addresses only.
   */
  method UpdateAddress(db: Db, caller: nat, id: nat, patch: InfoPatch, isDefault: Option<bool>)
    returns (status: Status, updated: Option<Address>)
    requires db.Valid()
    modifies db`addresses
    ensures db.Valid()
    ensures var found := FindAddress(old(db.addresses), id);
      if found.None? then
        status == NotFound && updated.None? && db.addresses == old(db.addresses)
      else if old(db.addresses)[found.value].userId != caller then
        status == Unauthorized && updated.None? && db.addresses == old(db.addresses)
      else
        var i := found.value;
        var a := old(db.addresses)[i];
        var cleared := if isDefault == Some(true) then ClearDefaults(old(db.addresses), caller, Some(id)) else old(db.addresses);
        && status == Ok
        && updated == Some(a.(info := ApplyPatch(a.info, patch), isDefault := Pick(isDefault, a.isDefault)))
        && db.addresses == cleared[i := updated.value]
    ensures forall i :: 0 <= i < |old(db.addresses)| && old(db.addresses)[i].userId != caller ==>
              db.addresses[i] == old(db.addresses)[i]
    ensures AtMostOneDefault(old(db.addresses)) ==> AtMostOneDefault(db.addresses)
  {
    var found := FindAddress(db.addresses, id);
    if found.None? {
      return NotFound, None;
    }
    var i := found.value;
    var a := db.addresses[i];
    if a.userId != caller {
      return Unauthorized, None;
    }
    var as_ := db.addresses;
    if isDefault == Some(true) {
      as_ := ClearDefaults(as_, caller, Some(id));
    }
    var a' := a.(info := ApplyPatch(a.info, patch), isDefault := Pick(isDefault, a.isDefault));
    UpdateKeeps(db.addresses, i, caller, a', isDefault == Some(true), db.nextId);
    db.addresses := as_[i := a'];
    status, updated := Ok, Some(a');
  }

  /** deleteAddress: 404 and 401 as for update; otherwise exactly that row goes and no other address is promoted. */
  method DeleteAddress(db: Db, caller: nat, id: nat) returns (status: Status)
    requires db.Valid()
    modifies db`addresses
    ensures db.Valid()
    ensures var found := FindAddress(old(db.addresses), id);
      if found.None? then
        status == NotFound && db.addresses == old(db.addresses)
      else if old(db.addresses)[found.value].userId != caller then
        status == Unauthorized && db.addresses == old(db.addresses)
      else
        var i := found.value;
        status == Ok && db.addresses == old(db.addresses)[..i] + old(db.addresses)[i + 1..]
    ensures forall a :: a in db.addresses ==> a in old(db.addresses)
    ensures AtMostOneDefault(old(db.addresses)) ==> AtMostOneDefault(db.addresses)
  {
    var found := FindAddress(db.addresses, id);
    if found.None? {
      return NotFound;
    }
    var i := found.value;
    if db.addresses[i].userId != caller {
      return Unauthorized;
    }
    ghost var before := db.addresses;
    db.addresses := db.addresses[..i] + db.addresses[i + 1..];
    assert forall k :: 0 <= k < |db.addresses| ==> db.addresses[k] == if k < i then before[k] else before[k + 1];
    status := Ok;
  }
}
