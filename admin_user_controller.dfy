/**
 * The administrator's user management: the user listing (no passwords), the
 * role change (USER or ADMIN only) and account deletion (never one's own).
 */
module AdminUserController {
  import opened Wrappers
  import opened Store
  import ProductController

  /** One row of the listing: the selected columns and the number of products owned. */
  datatype UserRow = UserRow(id: nat, name: string, email: string, role: string, createdAt: nat, productCount: nat)

  /** getUsers: one row per user, in stored order, with the user's product count. */
  function GetUsers(us: seq<User>, ps: seq<Product>): (r: seq<UserRow>)
    ensures |r| == |us|
    ensures forall k :: 0 <= k < |us| ==>
              r[k] == UserRow(us[k].id, us[k].name, us[k].email, us[k].role, us[k].createdAt,
                              |ProductController.MyProducts(ps, us[k].id)|)
  {
    seq(|us|, k requires 0 <= k < |us| =>
      UserRow(us[k].id, us[k].name, us[k].email, us[k].role, us[k].createdAt,
              |ProductController.MyProducts(ps, us[k].id)|))
  }

  /** The listing does not depend on passwords or profile images: users differing only there list the same. */
  lemma UsersListingHidesPasswords(us: seq<User>, vs: seq<User>, ps: seq<Product>)
    requires |us| == |vs|
    requires forall k :: 0 <= k < |us| ==> vs[k] == us[k].(password := vs[k].password, profileImage := vs[k].profileImage)
    ensures GetUsers(us, ps) == GetUsers(vs, ps)
  {
    assert forall k :: 0 <= k < |us| ==> GetUsers(us, ps)[k] == GetUsers(vs, ps)[k];
  }

  predicate ValidRole(role: string) {
    role == UserRole || role == AdminRole
  }

  /**
   * updateUserRole: 400 for a role other than USER or ADMIN; an unknown id
   * makes the store throw (500); otherwise only that user's role changes.
   */
  method UpdateUserRole(db: Db, id: nat, role: string) returns (status: Status, updated: Option<User>)
    requires db.Valid()
    modifies db`users
    ensures db.Valid()
    ensures !ValidRole(role) ==> status == BadRequest && updated.None? && db.users == old(db.users)
    ensures ValidRole(role) && FindUser(old(db.users), id).None? ==>
              status == ServerError && updated.None? && db.users == old(db.users)
    ensures ValidRole(role) && FindUser(old(db.users), id).Some? ==>
              var i := FindUser(old(db.users), id).value;
              && status == Ok && updated == Some(old(db.users)[i].(role := role))
              && db.users == old(db.users)[i := updated.value]
    ensures ValidRole(role) && FindUser(old(db.users), id).Some? && old(db.users)[FindUser(old(db.users), id).value].role == role ==>
              db.users == old(db.users)
  {
    if !ValidRole(role) {
      return BadRequest, None;
    }
    var found := FindUser(db.users, id);
    if found.None? {
      return ServerError, None;
    }
    var i := found.value;
    var u := db.users[i].(role := role);
    db.users := db.users[i := u];
    return Ok, Some(u);
  }

  /** deleteUser: 400 for the caller's own id; an unknown id makes the store throw (500); otherwise that row goes. */
  method DeleteUser(db: Db, callerId: nat, id: nat) returns (status: Status)
    requires db.Valid()
    modifies db`users
    ensures db.Valid()
    ensures id == callerId ==> status == BadRequest && db.users == old(db.users)
    ensures id != callerId && FindUser(old(db.users), id).None? ==> status == ServerError && db.users == old(db.users)
    ensures id != callerId && FindUser(old(db.users), id).Some? ==>
              var i := FindUser(old(db.users), id).value;
              status == Ok && db.users == old(db.users)[..i] + old(db.users)[i + 1..]
    ensures forall u :: u in old(db.users) && u.id == callerId ==> u in db.users
  {
    if id == callerId {
      return BadRequest;
    }
    var found := FindUser(db.users, id);
    if found.None? {
      return ServerError;
    }
    var i := found.value;
    UsersRemoved(db.users, i);
    db.users := db.users[..i] + db.users[i + 1..];
    return Ok;
  }
}
