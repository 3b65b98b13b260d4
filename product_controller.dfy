/**
 * The owner's side of the catalogue: posting a product (always pending
 * approval), editing it, setting its status and deleting it. Editing,
 * status changes and deletion are open to the owner and to administrators.
 */
module ProductController {
  import opened Wrappers
  import opened Strings
  import opened Store

  /** The path multer's file name is served under. */
  function UploadPath(fileName: string): string {
    "/uploads/" + fileName
  }

  /** The owner, or any administrator, may edit, re-status or delete a product. */
  predicate MayEdit(p: Product, callerId: nat, callerRole: string) {
    p.ownerId == callerId || callerRole == AdminRole
  }

  /** The statuses an owner may set. */
  predicate OwnerStatus(s: string) {
    s == Available || s == Exchanged || s == Cancelled
  }

  /** The stored images of a new product: a list holding only the cover, or null without one. */
  function CoverImages(coverFile: Option<string>): (r: Images)
    ensures coverFile.None? <==> r.NoImages?
    ensures coverFile.Some? ==> r == List([UploadPath(coverFile.value)])
  {
    if coverFile.Some? then List([UploadPath(coverFile.value)]) else NoImages
  }

  /**
   * `categoryId ? parseInt(categoryId) : undefined` on the multipart text
   * field: any non-empty text, "0" included, is written; `None` writes nothing.
   */
  function CategoryArg(categoryId: Option<string>): (r: Option<nat>)
    ensures r.Some? <==> TruthyStr(categoryId)
    ensures r.Some? ==> r.value == ParseDigits(categoryId.value)
  {
    if TruthyStr(categoryId) then Some(ParseDigits(categoryId.value)) else None
  }

  /** The decimal text of any category id, 0 included, is written back as that id. */
  lemma CategoryArgReadsId(n: nat)
    ensures CategoryArg(Some(NatToString(n))) == Some(n)
  {
    ParseNatToString(n);
  }

  /** In a valid store a new row's id and time are unused and later than every stored one. */
  lemma AppendProductValid(ps: seq<Product>, p: Product, nextId: nat, clock: nat)
    requires ProductsWellFormed(ps, nextId, clock)
    requires p.id == nextId && p.createdAt == clock
    ensures ProductsWellFormed(ps + [p], nextId + 1, clock + 1)
  {
  }

  /** createProduct: 400 without a title or a description; otherwise a new product pending approval. */
  method CreateProduct(db: Db, ownerId: nat, title: Option<string>, description: Option<string>,
                       categoryId: Option<string>, coverFile: Option<string>, videoFile: Option<string>)
    returns (status: Status, created: Option<Product>)
    requires db.Valid()
    modifies db`products, db`nextId, db`clock
    ensures db.Valid()
    ensures !TruthyStr(title) || !TruthyStr(description) ==>
              status == BadRequest && created.None? && unchanged(db)
    ensures TruthyStr(title) && TruthyStr(description) ==>
              && status == Created
              && created == Some(Product(old(db.nextId), title.value, description.value, ownerId, PendingApproval,
                                         CoverImages(coverFile),
                                         if videoFile.Some? then Some(UploadPath(videoFile.value)) else None,
                                         CategoryArg(categoryId), old(db.clock)))
              && db.products == old(db.products) + [created.value]
              && db.nextId == old(db.nextId) + 1 && db.clock == old(db.clock) + 1
  {
    if !TruthyStr(title) || !TruthyStr(description) {
      return BadRequest, None;
    }
    var video := if videoFile.Some? then Some(UploadPath(videoFile.value)) else None;
    var p := Product(db.nextId, title.value, description.value, ownerId, PendingApproval,
                     CoverImages(coverFile), video, CategoryArg(categoryId), db.clock);
    AppendProductValid(db.products, p, db.nextId, db.clock);
    db.products := db.products + [p];
    db.nextId := db.nextId + 1;
    db.clock := db.clock + 1;
    return Created, Some(p);
  }

  /** getMyProducts: the caller's own products, in stored order. */
  function MyProducts(ps: seq<Product>, ownerId: nat): (r: seq<Product>)
    ensures forall p :: p in r <==> p in ps && p.ownerId == ownerId
    ensures |r| <= |ps|
    decreases |ps|
  {
    if |ps| == 0 then []
    else if ps[0].ownerId == ownerId then [ps[0]] + MyProducts(ps[1..], ownerId)
    else MyProducts(ps[1..], ownerId)
  }

  /** The cover after an edit: a new upload, else the existing cover the form sends back, else none. */
  function EditedImages(coverFile: Option<string>, existingCover: Option<string>): (r: Images)
    ensures coverFile.Some? ==> r == List([UploadPath(coverFile.value)])
    ensures coverFile.None? && TruthyStr(existingCover) ==> r == List([existingCover.value])
    ensures coverFile.None? && !TruthyStr(existingCover) ==> r == NoImages
  {
    if coverFile.Some? then List([UploadPath(coverFile.value)])
    else if TruthyStr(existingCover) then List([existingCover.value])
    else NoImages
  }

  /** The row an edit writes: title and description as sent (absent ones kept), never status or owner. */
  function Edited(p: Product, title: Option<string>, description: Option<string>, categoryId: Option<string>,
                  coverFile: Option<string>, existingCover: Option<string>, videoFile: Option<string>): (r: Product)
    ensures r.id == p.id && r.ownerId == p.ownerId && r.status == p.status && r.createdAt == p.createdAt
    ensures r.title == (if title.Some? then title.value else p.title)
    ensures r.description == (if description.Some? then description.value else p.description)
    ensures r.images == EditedImages(coverFile, existingCover)
    ensures r.video == if videoFile.Some? then Some(UploadPath(videoFile.value)) else p.video
    ensures r.categoryId == if TruthyStr(categoryId) then CategoryArg(categoryId) else p.categoryId
  {
    p.(title := if title.Some? then title.value else p.title,
       description := if description.Some? then description.value else p.description,
       images := EditedImages(coverFile, existingCover),
       video := if videoFile.Some? then Some(UploadPath(videoFile.value)) else p.video,
       categoryId := if TruthyStr(categoryId) then CategoryArg(categoryId) else p.categoryId)
  }

  /** updateProduct: 404 for an unknown id, 401 unless owner or administrator, otherwise the edited row. */
  method UpdateProduct(db: Db, callerId: nat, callerRole: string, id: nat,
                       title: Option<string>, description: Option<string>, categoryId: Option<string>,
                       coverFile: Option<string>, existingCover: Option<string>, videoFile: Option<string>)
    returns (status: Status, updated: Option<Product>)
    requires db.Valid()
    modifies db`products
    ensures db.Valid()
    ensures var found := FindProduct(old(db.products), id);
      if found.None? then
        status == NotFound && updated.None? && db.products == old(db.products)
      else if !MayEdit(old(db.products)[found.value], callerId, callerRole) then
        status == Unauthorized && updated.None? && db.products == old(db.products)
      else
        var i := found.value;
        var p := Edited(old(db.products)[i], title, description, categoryId, coverFile, existingCover, videoFile);
        status == Ok && updated == Some(p) && db.products == old(db.products)[i := p]
  {
    var found := FindProduct(db.products, id);
    if found.None? {
      return NotFound, None;
    }
    var i := found.value;
    if !MayEdit(db.products[i], callerId, callerRole) {
      return Unauthorized, None;
    }
    var p := Edited(db.products[i], title, description, categoryId, coverFile, existingCover, videoFile);
    var ps := db.products[i := p];
    ProductsEdited(db.products, ps, db.nextId, db.clock);
    db.products := ps;
    return Ok, Some(p);
  }

  /**
   * updateProductStatus: 404, 401, then 400 for a status outside
   * available/exchanged/cancelled; the current status is not checked.
   */
  method UpdateProductStatus(db: Db, callerId: nat, callerRole: string, id: nat, newStatus: string)
    returns (status: Status, updated: Option<Product>)
    requires db.Valid()
    modifies db`products
    ensures db.Valid()
    ensures var found := FindProduct(old(db.products), id);
      if found.None? then
        status == NotFound && updated.None? && db.products == old(db.products)
      else if !MayEdit(old(db.products)[found.value], callerId, callerRole) then
        status == Unauthorized && updated.None? && db.products == old(db.products)
      else if !OwnerStatus(newStatus) then
        status == BadRequest && updated.None? && db.products == old(db.products)
      else
        var i := found.value;
        var p := old(db.products)[i].(status := newStatus);
        status == Ok && updated == Some(p) && db.products == old(db.products)[i := p]
  {
    var found := FindProduct(db.products, id);
    if found.None? {
      return NotFound, None;
    }
    var i := found.value;
    if !MayEdit(db.products[i], callerId, callerRole) {
      return Unauthorized, None;
    }
    if !OwnerStatus(newStatus) {
      return BadRequest, None;
    }
    var p := db.products[i].(status := newStatus);
    var ps := db.products[i := p];
    ProductsEdited(db.products, ps, db.nextId, db.clock);
    db.products := ps;
    return Ok, Some(p);
  }

  /** `message.updateMany({productId: id}, {productId: null})` */
  function DetachProduct(ms: seq<Message>, id: nat): (r: seq<Message>)
    ensures |r| == |ms|
    ensures forall k :: 0 <= k < |ms| ==> r[k] == if ms[k].productId == Some(id) then ms[k].(productId := None) else ms[k]
  {
    seq(|ms|, k requires 0 <= k < |ms| => if ms[k].productId == Some(id) then ms[k].(productId := None) else ms[k])
  }

  /** After the detach no message refers to the product, and every message is kept with all its other fields. */
  lemma DetachKeepsMessages(ms: seq<Message>, id: nat)
    ensures forall k :: 0 <= k < |ms| ==> DetachProduct(ms, id)[k].productId != Some(id)
    ensures forall k :: 0 <= k < |ms| ==> DetachProduct(ms, id)[k].(productId := ms[k].productId) == ms[k]
  {
  }

  /** deleteProduct: 404, 401; otherwise the product's messages lose the reference, then the row goes. */
  method DeleteProduct(db: Db, callerId: nat, callerRole: string, id: nat) returns (status: Status)
    requires db.Valid()
    modifies db`products, db`messages
    ensures db.Valid()
    ensures var found := FindProduct(old(db.products), id);
      if found.None? then
        status == NotFound && db.products == old(db.products) && db.messages == old(db.messages)
      else if !MayEdit(old(db.products)[found.value], callerId, callerRole) then
        status == Unauthorized && db.products == old(db.products) && db.messages == old(db.messages)
      else
        var i := found.value;
        && status == Ok
        && db.messages == DetachProduct(old(db.messages), id)
        && db.products == old(db.products)[..i] + old(db.products)[i + 1..]
  {
    var found := FindProduct(db.products, id);
    if found.None? {
      return NotFound;
    }
    var i := found.value;
    if !MayEdit(db.products[i], callerId, callerRole) {
      return Unauthorized;
    }
    var ms, ps := DetachProduct(db.messages, id), db.products[..i] + db.products[i + 1..];
    MessagesEdited(db.messages, ms, db.nextId, db.clock);
    ProductsRemoved(db.products, i, db.nextId, db.clock);
    db.messages, db.products := ms, ps;
    return Ok;
  }
}
