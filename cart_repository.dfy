/** The carts table and the item listing, as an in-memory store: a sequence of cart rows
    with the table's AUTO_INCREMENT counter, the cart-item rows, and the catalog tables
    the listing joins with. */
module Repository {
  import opened Wrappers

  type CartId = nat

  /** A row of `carts`. Times are milliseconds; `None` is SQL NULL. */
  datatype CartRow = CartRow(
    id: CartId,
    userId: Option<int>,
    sessionId: Option<string>,
    expiresAt: Option<int>,
    createdAt: int,
    deletedAt: Option<int>)

  /** 30 days in milliseconds: how long a guest cart stays active. */
  const GuestCartLifetimeMs: int := 30 * 24 * 60 * 60 * 1000

  /** The row createCartForUser inserts: no session, no expiry. */
  function UserCartRow(id: CartId, userId: int, now: int): CartRow {
    CartRow(id, Some(userId), None, None, now, None)
  }

  /** The row createCartForGuest inserts: it expires 30 days after creation. */
  function GuestCartRow(id: CartId, sessionId: string, now: int): CartRow {
    CartRow(id, None, Some(sessionId), Some(now + GuestCartLifetimeMs), now, None)
  }

  /** The two active-cart queries: by user, or by session at a given time. */
  datatype CartKey = ByUser(userId: int) | BySession(sessionId: string, now: int)

  /** The WHERE clause of the two queries. A guest cart whose expiry is not after `now`
      is no longer active; a user cart is matched regardless of any expiry. */
  predicate Selects(key: CartKey, row: CartRow) {
    && row.deletedAt.None?
    && match key
       case ByUser(u) => row.userId == Some(u)
       case BySession(s, now) => row.sessionId == Some(s) && (row.expiresAt.None? || row.expiresAt.value > now)
  }

  /** `ORDER BY id DESC LIMIT 1` over the selected rows: the largest selected id. */
  function Latest(rows: seq<CartRow>, key: CartKey): (r: Option<CartId>)
    ensures r.Some? ==> exists k :: 0 <= k < |rows| && Selects(key, rows[k]) && rows[k].id == r.value
    ensures forall k :: 0 <= k < |rows| && Selects(key, rows[k]) ==> r.Some? && rows[k].id <= r.value
  {
    if rows == [] then None
    else
      var best := Latest(rows[..|rows| - 1], key);
      var last := rows[|rows| - 1];
      if Selects(key, last) && (best.None? || best.value <= last.id) then Some(last.id) else best
  }

  /** A row of `cart_items`. */
  datatype CartItemRow = CartItemRow(
    cartItemId: nat, cartId: CartId, productId: int, quantity: int, deletedAt: Option<int>)

  /** A row of `products`; the sale price may be NULL. */
  datatype Product = Product(name: string, basePrice: int, salePrice: Option<int>)

  /** The catalog tables the listing joins with, keyed by product id: products, the
      inventory quantity, and the URL of the primary image. */
  datatype Catalog = Catalog(
    products: map<int, Product>,
    inventories: map<int, int>,
    primaryImages: map<int, string>)

  /** A row of the item listing. */
  datatype CartItemView = CartItemView(
    cartItemId: nat,
    productId: int,
    itemName: string,
    itemPrice: int,
    itemSalePrice: Option<int>,
    itemImageUrl: Option<string>,
    itemQuantity: int,
    inStock: bool)

  /** An item row survives the WHERE clause and both inner joins (product and inventory);
      the primary image is a left join and plays no part. */
  predicate Listed(row: CartItemRow, cartId: CartId, catalog: Catalog) {
    && row.cartId == cartId
    && row.deletedAt.None?
    && row.productId in catalog.products
    && row.productId in catalog.inventories
  }

  /** The projected columns for a listed item. */
  function ViewOf(row: CartItemRow, catalog: Catalog): CartItemView
    requires row.productId in catalog.products && row.productId in catalog.inventories
  {
    var p := catalog.products[row.productId];
    CartItemView(
      row.cartItemId, row.productId, p.name, p.basePrice, p.salePrice,
      if row.productId in catalog.primaryImages then Some(catalog.primaryImages[row.productId]) else None,
      row.quantity,
      catalog.inventories[row.productId] >= row.quantity)
  }

  /** The positions of the item rows that are listed, and listed as `v`. */
  function ListedAs(rows: seq<CartItemRow>, cartId: CartId, catalog: Catalog, v: CartItemView): set<nat> {
    set k: nat | k < |rows| && Listed(rows[k], cartId, catalog) && ViewOf(rows[k], catalog) == v
  }

  /** Adding a row at the end adds its position to the set it is listed as, and to no other. */
  lemma ListedAsSnoc(rows: seq<CartItemRow>, cartId: CartId, catalog: Catalog, v: CartItemView)
    requires rows != []
    ensures var last := rows[|rows| - 1];
            |ListedAs(rows, cartId, catalog, v)|
              == |ListedAs(rows[..|rows| - 1], cartId, catalog, v)|
                 + (if Listed(last, cartId, catalog) && ViewOf(last, catalog) == v then 1 else 0)
  {
    var n := |rows| - 1;
    var init, last := rows[..n], rows[n];
    var before := ListedAs(init, cartId, catalog, v);
    assert n !in before;
    if Listed(last, cartId, catalog) && ViewOf(last, catalog) == v {
      assert ListedAs(rows, cartId, catalog, v) == before + {n};
    } else {
      assert ListedAs(rows, cartId, catalog, v) == before;
    }
  }

  /** The join, in table order: each row that survives the WHERE clause and the inner
      joins is listed exactly once, and nothing else is. */
  function JoinItems(rows: seq<CartItemRow>, cartId: CartId, catalog: Catalog): (r: seq<CartItemView>)
    ensures forall v :: multiset(r)[v] == |ListedAs(rows, cartId, catalog, v)|
    ensures forall v :: v in r ==>
              exists k :: 0 <= k < |rows| && Listed(rows[k], cartId, catalog) && v == ViewOf(rows[k], catalog)
    ensures forall k :: 0 <= k < |rows| && Listed(rows[k], cartId, catalog) ==> ViewOf(rows[k], catalog) in r
  {
    if rows == [] then
      assert forall v :: ListedAs(rows, cartId, catalog, v) == {};
      []
    else
      var init := JoinItems(rows[..|rows| - 1], cartId, catalog);
      var last := rows[|rows| - 1];
      assert forall v :: |ListedAs(rows, cartId, catalog, v)|
                           == |ListedAs(rows[..|rows| - 1], cartId, catalog, v)|
                              + (if Listed(last, cartId, catalog) && ViewOf(last, catalog) == v then 1 else 0)
        by { forall v { ListedAsSnoc(rows, cartId, catalog, v); } }
      if Listed(last, cartId, catalog) then init + [ViewOf(last, catalog)] else init
  }

  /** The item ids the join lists, in order. */
  function ItemIds(views: seq<CartItemView>): seq<nat> {
    seq(|views|, k requires 0 <= k < |views| => views[k].cartItemId)
  }

  /** The primary-image join is a left join: which items are listed does not depend on
      the image table at all. */
  lemma {:induction false} ImagesNeverDropItems(
    rows: seq<CartItemRow>, cartId: CartId, catalog: Catalog, images: map<int, string>)
    ensures ItemIds(JoinItems(rows, cartId, catalog))
         == ItemIds(JoinItems(rows, cartId, catalog.(primaryImages := images)))
  {
    if rows != [] {
      var other := catalog.(primaryImages := images);
      var init := rows[..|rows| - 1];
      ImagesNeverDropItems(init, cartId, catalog, images);
      var a, b := JoinItems(init, cartId, catalog), JoinItems(init, cartId, other);
      var last := rows[|rows| - 1];
      if Listed(last, cartId, catalog) {
        var va, vb := ViewOf(last, catalog), ViewOf(last, other);
        assert JoinItems(rows, cartId, catalog) == a + [va];
        assert JoinItems(rows, cartId, other) == b + [vb];
        ItemIdsSnoc(a, va);
        ItemIdsSnoc(b, vb);
      } else {
        assert JoinItems(rows, cartId, catalog) == a;
        assert JoinItems(rows, cartId, other) == b;
      }
    }
  }

  lemma ItemIdsSnoc(views: seq<CartItemView>, v: CartItemView)
    ensures ItemIds(views + [v]) == ItemIds(views) + [v.cartItemId]
  {
    assert (views + [v])[..|views|] == views;
  }


  class CartRepository {
    var carts: seq<CartRow>
    /** The AUTO_INCREMENT counter of `carts`: the id the next insert receives. */
    var nextCartId: CartId
    var cartItems: seq<CartItemRow>
    var catalog: Catalog

    /** Ids start at 1 and every existing id is below the counter. */
    ghost predicate Valid()
      reads this
    {
      && 0 < nextCartId
      && forall k :: 0 <= k < |carts| ==> 0 < carts[k].id < nextCartId
    }

    /** The store as it stands: its tables and its counter. */
    constructor (carts: seq<CartRow>, nextCartId: CartId, cartItems: seq<CartItemRow>, catalog: Catalog)
      requires 0 < nextCartId
      requires forall k :: 0 <= k < |carts| ==> 0 < carts[k].id < nextCartId
      ensures Valid()
      ensures this.carts == carts && this.nextCartId == nextCartId
      ensures this.cartItems == cartItems && this.catalog == catalog
    {
      this.carts := carts;
      this.nextCartId := nextCartId;
      this.cartItems := cartItems;
      this.catalog := catalog;
    }

    /** getActiveCartByUserId: the newest non-deleted cart of the user, if any. */
    function GetActiveCartByUserId(userId: int): (r: Option<CartId>)
      reads this
      ensures r.Some? ==>
                exists k :: 0 <= k < |carts| && Selects(ByUser(userId), carts[k]) && carts[k].id == r.value
      ensures forall k :: 0 <= k < |carts| && Selects(ByUser(userId), carts[k]) ==>
                r.Some? && carts[k].id <= r.value
    {
      Latest(carts, ByUser(userId))
    }

    /** getActiveCartBySessionId: the newest non-deleted cart of the session that has not
        expired at `now`, if any. */
    function GetActiveCartBySessionId(sessionId: string, now: int): (r: Option<CartId>)
      reads this
      ensures r.Some? ==>
                exists k :: 0 <= k < |carts| && Selects(BySession(sessionId, now), carts[k]) && carts[k].id == r.value
      ensures forall k :: 0 <= k < |carts| && Selects(BySession(sessionId, now), carts[k]) ==>
                r.Some? && carts[k].id <= r.value
    {
      Latest(carts, BySession(sessionId, now))
    }

    /** createCartForUser: inserts one row and returns its fresh id, which from then on
        is the user's active cart. */
    method CreateCartForUser(userId: int, now: int) returns (cartId: CartId)
      requires Valid()
      modifies this`carts, this`nextCartId
      ensures Valid()
      ensures cartId == old(nextCartId) && nextCartId == cartId + 1
      ensures carts == old(carts) + [UserCartRow(cartId, userId, now)]
      ensures GetActiveCartByUserId(userId) == Some(cartId)
    {
      cartId := nextCartId;
      carts := carts + [UserCartRow(cartId, userId, now)];
      nextCartId := nextCartId + 1;
      NewestSelected(ByUser(userId));
    }

    /** createCartForGuest: inserts one row expiring 30 days from now and returns its fresh
        id, which is the session's active cart until it expires. */
    method CreateCartForGuest(sessionId: string, now: int) returns (cartId: CartId)
      requires Valid()
      modifies this`carts, this`nextCartId
      ensures Valid()
      ensures cartId == old(nextCartId) && nextCartId == cartId + 1
      ensures carts == old(carts) + [GuestCartRow(cartId, sessionId, now)]
      ensures forall t :: t < now + GuestCartLifetimeMs ==> GetActiveCartBySessionId(sessionId, t) == Some(cartId)
    {
      cartId := nextCartId;
      carts := carts + [GuestCartRow(cartId, sessionId, now)];
      nextCartId := nextCartId + 1;
      forall t | t < now + GuestCartLifetimeMs
        ensures GetActiveCartBySessionId(sessionId, t) == Some(cartId)
      {
        NewestSelected(BySession(sessionId, t));
      }
    }

    /** When the last row is selected and every id is at most its id, the query returns it. */
    lemma NewestSelected(key: CartKey)
      requires |carts| > 0 && Selects(key, carts[|carts| - 1])
      requires forall k :: 0 <= k < |carts| ==> carts[k].id <= carts[|carts| - 1].id
      ensures Latest(carts, key) == Some(carts[|carts| - 1].id)
    {
    }

    /** getCartItemsByCartId: the non-deleted items of the cart whose product has a product
        row and an inventory row, each flagged in stock when the inventory covers its
        quantity. */
    function GetCartItemsByCartId(cartId: CartId): (r: seq<CartItemView>)
      reads this
      ensures forall v :: multiset(r)[v] == |ListedAs(cartItems, cartId, catalog, v)|
      ensures forall v :: v in r ==>
                exists k :: 0 <= k < |cartItems| && Listed(cartItems[k], cartId, catalog)
                                                 && v == ViewOf(cartItems[k], catalog)
      ensures forall k :: 0 <= k < |cartItems| && Listed(cartItems[k], cartId, catalog) ==>
                ViewOf(cartItems[k], catalog) in r
      ensures forall v :: v in r ==>
                v.productId in catalog.inventories
                && (v.inStock <==> catalog.inventories[v.productId] >= v.itemQuantity)
    {
      JoinItems(cartItems, cartId, catalog)
    }
  }
}
