/**
 * The public catalogue: available products filtered by a search term and a
 * category, newest first, one page at a time, with the page count; and a
 * single product by id.
 */
module PublicProductController {
  import opened Wrappers
  import opened Strings
  import opened Store
  import opened AdminProductController

  const DefaultPage: int := 1
  const DefaultLimit: int := 10

  /**
   * A product the listing may show: available, matching the term in title or
   * description, and in the category. `category` is the parsed query text,
   * `None` when it is absent or empty; "0" is a category like any other.
   */
  predicate Listed(p: Product, search: Option<string>, category: Option<nat>) {
    && p.status == Available
    && (!TruthyStr(search) || Contains(p.title, search.value) || Contains(p.description, search.value))
    && (category.None? || p.categoryId == category)
  }

  /** The products matching the filter, in stored order. */
  function Matching(ps: seq<Product>, search: Option<string>, category: Option<nat>): (r: seq<Product>)
    ensures forall p :: p in r <==> p in ps && Listed(p, search, category)
    ensures |r| <= |ps|
    decreases |ps|
  {
    if |ps| == 0 then []
    else if Listed(ps[0], search, category) then [ps[0]] + Matching(ps[1..], search, category)
    else Matching(ps[1..], search, category)
  }

  /**
   * `Math.ceil(total / limit)` for a positive limit: the number of pages of
   * `limit` entries that `total` entries fill, the last one possibly partial.
   */
  function CeilDiv(total: nat, limit: nat): nat
    requires limit > 0
    decreases total
  {
    if total == 0 then 0
    else if total <= limit then 1
    else 1 + CeilDiv(total - limit, limit)
  }

  datatype Pagination = Pagination(total: nat, page: nat, limit: nat, totalPages: nat)

  /** A page of the listing; `InvalidPaging` stands for a page or limit below 1, which the store refuses. */
  datatype Listing = Listing(products: seq<Product>, pagination: Pagination) | InvalidPaging

  /** The matches, newest first. */
  function Ordered(ps: seq<Product>, search: Option<string>, category: Option<nat>): seq<Product> {
    GetAllProducts(Matching(ps, search, category))
  }

  /** The window `skip = (page - 1) * limit`, `take = limit` of a list. */
  function Window(all: seq<Product>, skip: nat, take: nat): (r: seq<Product>)
    ensures |r| <= take
    ensures forall j :: 0 <= j < |r| ==> skip + j < |all| && r[j] == all[skip + j]
    ensures skip + take <= |all| ==> |r| == take
    ensures skip < |all| < skip + take ==> |r| == |all| - skip
  {
    if skip >= |all| then []
    else if skip + take <= |all| then all[skip..skip + take]
    else all[skip..]
  }

  /** `skip = (page - 1) * limit` */
  function Skip(page: int, limit: int): (r: nat)
    requires page >= 1 && limit >= 1
    ensures r == limit * (page - 1)
  {
    MulMonotone(limit, 0, page - 1);
    (page - 1) * limit
  }

  /** getProducts */
  function GetProducts(ps: seq<Product>, search: Option<string>, category: Option<nat>,
                       page: Option<int>, limit: Option<int>): (r: Listing)
    ensures var pg := if page.Some? then page.value else DefaultPage;
            var l := if limit.Some? then limit.value else DefaultLimit;
            r.InvalidPaging? <==> pg < 1 || l < 1
    ensures r.Listing? ==>
              && r.pagination.total == |Matching(ps, search, category)|
              && r.pagination.limit >= 1
              && r.pagination.totalPages == CeilDiv(r.pagination.total, r.pagination.limit)
              && |r.products| <= r.pagination.limit
              && forall p :: p in r.products ==> p in ps && Listed(p, search, category)
  {
    var pg := if page.Some? then page.value else DefaultPage;
    var l := if limit.Some? then limit.value else DefaultLimit;
    if pg < 1 || l < 1 then InvalidPaging
    else
      var all := Ordered(ps, search, category);
      var total := |Matching(ps, search, category)|;
      Listing(Window(all, Skip(pg, l), l), Pagination(total, pg, l, CeilDiv(total, l)))
  }

  /** Keeping only the products that match keeps the stored creation order. */
  lemma {:induction false} MatchingKeepsOldestFirst(ps: seq<Product>, search: Option<string>, category: Option<nat>)
    requires OldestFirst(ps)
    ensures OldestFirst(Matching(ps, search, category))
    decreases |ps|
  {
    if |ps| > 0 {
      MatchingKeepsOldestFirst(ps[1..], search, category);
      var rest := Matching(ps[1..], search, category);
      if Listed(ps[0], search, category) {
        assert forall k :: 0 <= k < |rest| ==> ps[0].createdAt < rest[k].createdAt by {
          forall k | 0 <= k < |rest| ensures ps[0].createdAt < rest[k].createdAt {
            assert rest[k] in ps[1..];
            var j :| 0 <= j < |ps[1..]| && ps[1..][j] == rest[k];
            assert ps[j + 1] == rest[k];
          }
        }
        var r := [ps[0]] + rest;
        assert forall k :: 0 < k < |r| ==> r[k] == rest[k - 1];
      }
    }
  }

  /** A window of a newest-first list is newest first. */
  lemma WindowNewestFirst(all: seq<Product>, skip: nat, take: nat)
    requires NewestFirst(all)
    ensures NewestFirst(Window(all, skip, take))
  {
    var r := Window(all, skip, take);
    forall i, j | 0 <= i < j < |r| ensures r[i].createdAt > r[j].createdAt {
      assert r[i] == all[skip + i] && r[j] == all[skip + j];
    }
  }

  /** Every page of the listing of a valid store is in `createdAt` descending order. */
  lemma ListingNewestFirst(db: Db, search: Option<string>, category: Option<nat>, page: Option<int>, limit: Option<int>)
    requires db.Valid()
    ensures var r := GetProducts(db.products, search, category, page, limit);
            r.Listing? ==> NewestFirst(r.products)
  {
    var r := GetProducts(db.products, search, category, page, limit);
    if r.Listing? {
      var pg := if page.Some? then page.value else DefaultPage;
      var l := if limit.Some? then limit.value else DefaultLimit;
      StoreKeepsProductsOldestFirst(db);
      MatchingKeepsOldestFirst(db.products, search, category);
      AllProductsNewestFirst(Matching(db.products, search, category));
      ListingWindow(db.products, search, category, pg, l);
      WindowNewestFirst(Ordered(db.products, search, category), Skip(pg, l), l);
    }
  }

  lemma MulMonotone(l: nat, x: nat, y: nat)
    requires x <= y
    ensures l * x <= l * y
  {
  }

  /** Integer division by a positive number is the largest multiple below: `q = a / l` iff `l*q <= a < l*(q+1)`. */
  lemma DivUnique(a: nat, l: nat, q: nat)
    requires l > 0 && l * q <= a < l * (q + 1)
    ensures a / l == q
  {
    var d := a / l;
    assert a == l * d + a % l && 0 <= a % l < l;
    if d < q {
      MulMonotone(l, d + 1, q);
      assert false;
    } else if d > q {
      MulMonotone(l, q + 1, d);
      assert false;
    }
  }

  /** The page of index `k`: `limit * (k / limit) <= k < limit * (k / limit + 1)`. */
  lemma PageBounds(k: nat, l: nat)
    requires l >= 1
    ensures l * (k / l) <= k < l * (k / l + 1)
    ensures k - l * (k / l) == k % l
  {
    assert k == l * (k / l) + k % l && 0 <= k % l < l;
  }

  /**
   * The page count is the least number of pages of `limit` entries that hold
   * `total` entries, which is the quotient rounded up.
   */
  lemma {:induction false} CeilDivBounds(total: nat, limit: nat)
    requires limit > 0
    ensures total <= limit * CeilDiv(total, limit)
    ensures CeilDiv(total, limit) == 0 || limit * (CeilDiv(total, limit) - 1) < total
    ensures CeilDiv(total, limit) == (total + limit - 1) / limit
    decreases total
  {
    var r := CeilDiv(total, limit);
    if total > limit {
      CeilDivBounds(total - limit, limit);
      assert limit * r == limit * (r - 1) + limit;
      assert limit * (r - 1) == limit * (r - 2) + limit;
    }
    DivUnique(total + limit - 1, limit, r);
  }

  /** The pages before `page` are the ones before `page - 1` and one more. */
  lemma SkipStep(page: int, limit: int)
    requires page > 1 && limit >= 1
    ensures Skip(page, limit) == Skip(page - 1, limit) + limit
  {
    assert limit * (page - 1) == limit * (page - 2) + limit;
  }

  /** Index `k` is entry `k % limit` after the pages before page `k / limit + 1`. */
  lemma PageStart(k: nat, l: nat)
    requires l >= 1
    ensures Skip(k / l + 1, l) + k % l == k && k % l < l
  {
    PageBounds(k, l);
  }

  /** A page that starts below the total is within the page count. */
  lemma {:induction false} PageWithinCount(total: nat, l: nat, p: nat)
    requires p >= 1 && l >= 1 && Skip(p, l) < total
    ensures p <= CeilDiv(total, l)
    decreases p
  {
    if p > 1 {
      SkipStep(p, l);
      PageWithinCount(total - l, l, p - 1);
    }
  }

  /** Index `k` lies on no page but `k / limit + 1`. */
  lemma OnlyPage(l: nat, k: nat)
    requires l >= 1
    ensures forall q: nat :: 1 <= q && l * (q - 1) <= k < l * q ==> q == k / l + 1
  {
    forall q: nat | 1 <= q && l * (q - 1) <= k < l * q
      ensures q == k / l + 1
    {
      DivUnique(k, l, q - 1);
    }
  }

  /**
   * Each match lands on exactly one page, `k / limit + 1`, at position
   * `k % limit` of it, and that page is within the page count.
   */
  lemma EveryMatchOnOnePage(ps: seq<Product>, search: Option<string>, category: Option<nat>, l: nat, k: nat)
    requires l >= 1 && k < |Matching(ps, search, category)|
    ensures var p := k / l + 1;
            var r := GetProducts(ps, search, category, Some(p), Some(l));
            && 1 <= p <= r.pagination.totalPages
            && k % l < |r.products| && r.products[k % l] == Ordered(ps, search, category)[k]
    ensures forall q: nat :: 1 <= q && l * (q - 1) <= k < l * q ==> q == k / l + 1
  {
    PageStart(k, l);
    OnPage(ps, search, category, l, k / l + 1, k % l);
    OnlyPage(l, k);
  }

  /**
   * Position `j` of page `p` holds the match at `skip + j`, `skip` counting the
   * `p - 1` full pages before it, and that page is within the page count.
   */
  lemma OnPage(ps: seq<Product>, search: Option<string>, category: Option<nat>, l: nat, p: nat, j: nat)
    requires p >= 1 && j < l && Skip(p, l) + j < |Matching(ps, search, category)|
    ensures var r := GetProducts(ps, search, category, Some(p), Some(l));
            && p <= r.pagination.totalPages
            && j < |r.products| && r.products[j] == Ordered(ps, search, category)[Skip(p, l) + j]
  {
    var all, skip := Ordered(ps, search, category), Skip(p, l);
    assert p <= CeilDiv(|Matching(ps, search, category)|, l) by {
      PageWithinCount(|Matching(ps, search, category)|, l, p);
    }
    assert j < |Window(all, skip, l)| && Window(all, skip, l)[j] == all[skip + j] by {
      WindowAt(all, skip, l, j);
    }
    ListingWindow(ps, search, category, p, l);
  }

  /** A valid request lists the window of the ordered matches that starts after `page - 1` full pages. */
  lemma ListingWindow(ps: seq<Product>, search: Option<string>, category: Option<nat>, p: int, l: int)
    requires p >= 1 && l >= 1
    ensures var r := GetProducts(ps, search, category, Some(p), Some(l));
            && r.Listing?
            && r.products == Window(Ordered(ps, search, category), Skip(p, l), l)
            && r.pagination.totalPages == CeilDiv(|Matching(ps, search, category)|, l)
  {
  }

  /** Position `j` of a window is the match `skip + j` whenever both exist. */
  lemma WindowAt(all: seq<Product>, skip: nat, take: nat, j: nat)
    requires j < take && skip + j < |all|
    ensures j < |Window(all, skip, take)| && Window(all, skip, take)[j] == all[skip + j]
  {
  }

  /** getProduct: 404 for an unknown id. */
  function GetProduct(ps: seq<Product>, id: nat): (r: (Status, Option<Product>))
    ensures r.0 == NotFound <==> forall p :: p in ps ==> p.id != id
    ensures r.0 == Ok || r.0 == NotFound
    ensures r.1.Some? <==> r.0 == Ok
    ensures r.1.Some? ==> r.1.value in ps && r.1.value.id == id
  {
    match FindProduct(ps, id)
    case None => (NotFound, None)
    case Some(i) => (Ok, Some(ps[i]))
  }

  /** Unlike the listing, a single product is returned whatever its status, pending and cancelled ones included. */
  lemma GetProductIgnoresStatus(ps: seq<Product>, i: nat)
    requires i < |ps| && forall a, b :: 0 <= a < b < |ps| ==> ps[a].id != ps[b].id
    ensures GetProduct(ps, ps[i].id) == (Ok, Some(ps[i]))
    ensures ps[i].status != Available ==> forall s, c :: !Listed(ps[i], s, c)
  {
    assert FindProduct(ps, ps[i].id).Some?;
  }
}
