/**
 * The administrator's view of the catalogue: every product newest first,
 * the queue of products pending approval, and approve/reject, which set the
 * status whatever it was before.
 */
module AdminProductController {
  import opened Wrappers
  import opened Store

  /** Strictly increasing `createdAt`, which the store keeps for its products. */
  ghost predicate OldestFirst(ps: seq<Product>) {
    forall i, j :: 0 <= i < j < |ps| ==> ps[i].createdAt < ps[j].createdAt
  }

  /** Strictly decreasing `createdAt`: `orderBy: {createdAt: 'desc'}`. */
  ghost predicate NewestFirst(ps: seq<Product>) {
    forall i, j :: 0 <= i < j < |ps| ==> ps[i].createdAt > ps[j].createdAt
  }

  /** getAllProducts: the store's products in `createdAt` descending order. */
  function GetAllProducts(ps: seq<Product>): (r: seq<Product>)
    ensures |r| == |ps|
    ensures forall p :: p in r <==> p in ps
  {
    var r := Reverse(ps);
    assert forall p :: p in ps ==> p in r by {
      forall p | p in ps ensures p in r {
        var i :| 0 <= i < |ps| && ps[i] == p;
        assert r[|ps| - 1 - i] == p;
      }
    }
    r
  }

  /** Products stored oldest first are listed newest first. */
  lemma AllProductsNewestFirst(ps: seq<Product>)
    requires OldestFirst(ps)
    ensures NewestFirst(GetAllProducts(ps))
  {
  }

  /** A valid store keeps its products oldest first. */
  lemma StoreKeepsProductsOldestFirst(db: Db)
    requires db.Valid()
    ensures OldestFirst(db.products)
  {
  }

  /** getPendingProducts: exactly the products pending approval, in stored order. */
  function GetPendingProducts(ps: seq<Product>): (r: seq<Product>)
    ensures forall p :: p in r <==> p in ps && p.status == PendingApproval
    ensures |r| <= |ps|
    decreases |ps|
  {
    if |ps| == 0 then []
    else if ps[0].status == PendingApproval then [ps[0]] + GetPendingProducts(ps[1..])
    else GetPendingProducts(ps[1..])
  }

  /**
   * `product.update({id}, {status})`: an unknown id makes the store throw,
   * which the error handler answers with 500; otherwise only the status of
   * that row changes.
   */
  method SetStatus(db: Db, id: nat, newStatus: string) returns (status: Status, updated: Option<Product>)
    requires db.Valid()
    modifies db`products
    ensures db.Valid()
    ensures var found := FindProduct(old(db.products), id);
      if found.None? then
        status == ServerError && updated.None? && db.products == old(db.products)
      else
        var i := found.value;
        && status == Ok && updated == Some(old(db.products)[i].(status := newStatus))
        && db.products == old(db.products)[i := updated.value]
  {
    var found := FindProduct(db.products, id);
    if found.None? {
      return ServerError, None;
    }
    var i := found.value;
    var p := db.products[i].(status := newStatus);
    db.products := db.products[i := p];
    return Ok, Some(p);
  }

  /** approveProduct: status becomes available, from any status; approving again changes nothing. */
  method ApproveProduct(db: Db, id: nat) returns (status: Status, updated: Option<Product>)
    requires db.Valid()
    modifies db`products
    ensures db.Valid()
    ensures var found := FindProduct(old(db.products), id);
      if found.None? then
        status == ServerError && updated.None? && db.products == old(db.products)
      else
        var i := found.value;
        && status == Ok && updated == Some(old(db.products)[i].(status := Available))
        && db.products == old(db.products)[i := updated.value]
    ensures var found := FindProduct(old(db.products), id);
      found.Some? && old(db.products)[found.value].status == Available ==> db.products == old(db.products)
  {
    status, updated := SetStatus(db, id, Available);
  }

  /** rejectProduct: status becomes cancelled, from any status; rejecting again changes nothing. */
  method RejectProduct(db: Db, id: nat) returns (status: Status, updated: Option<Product>)
    requires db.Valid()
    modifies db`products
    ensures db.Valid()
    ensures var found := FindProduct(old(db.products), id);
      if found.None? then
        status == ServerError && updated.None? && db.products == old(db.products)
      else
        var i := found.value;
        && status == Ok && updated == Some(old(db.products)[i].(status := Cancelled))
        && db.products == old(db.products)[i := updated.value]
    ensures var found := FindProduct(old(db.products), id);
      found.Some? && old(db.products)[found.value].status == Cancelled ==> db.products == old(db.products)
  {
    status, updated := SetStatus(db, id, Cancelled);
  }
}
