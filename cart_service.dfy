/** The cart read service: find or create the owner's cart, list its items and total them. */
module CartService {
  import opened Wrappers
  import opened CartAuth
  import opened Repository

  /** The service's result object. */
  datatype CartView = CartView(
    cartId: Option<CartId>,
    subTotal: int,
    cartItems: seq<CartItemView>,
    ownerType: string)

  /** `itemSalePrice && itemSalePrice > 0`: a NULL or non-positive sale price does not apply. */
  predicate SaleApplies(item: CartItemView) {
    item.itemSalePrice.Some? && item.itemSalePrice.value > 0
  }

  /** The price an item is charged at. */
  function EffectivePrice(item: CartItemView): (p: int)
    ensures SaleApplies(item) ==> p == item.itemSalePrice.value
    ensures !SaleApplies(item) ==> p == item.itemPrice
    ensures p > 0 <==> SaleApplies(item) || item.itemPrice > 0
  {
    if SaleApplies(item) then item.itemSalePrice.value else item.itemPrice
  }

  /** Σ effective price × quantity over the items. */
  function LineTotal(items: seq<CartItemView>): (total: int)
    ensures (forall k :: 0 <= k < |items| ==> items[k].itemPrice >= 0 && items[k].itemQuantity >= 0) ==>
              total >= 0
  {
    if items == [] then 0
    else
      var last := items[|items| - 1];
      LineTotal(items[..|items| - 1]) + EffectivePrice(last) * last.itemQuantity
  }

  /** The total of a cart is the sum of the totals of any split of its items. */
  lemma {:induction false} LineTotalAppend(a: seq<CartItemView>, b: seq<CartItemView>)
    ensures LineTotal(a + b) == LineTotal(a) + LineTotal(b)
  {
    if b == [] {
      assert a + b == a;
    } else {
      var init := b[..|b| - 1];
      LineTotalAppend(a, init);
      assert (a + b)[..|a + b| - 1] == a + init;
    }
  }

  /** The reported subtotal: the line total clamped at zero. */
  function SubTotal(items: seq<CartItemView>): (s: int)
    ensures s >= 0 && s >= LineTotal(items)
    ensures s == LineTotal(items) || s == 0
  {
    if LineTotal(items) < 0 then 0 else LineTotal(items)
  }

  /** The clamp only acts on carts whose line total is negative. */
  lemma SubTotalOfNonNegativeItems(items: seq<CartItemView>)
    requires forall k :: 0 <= k < |items| ==> items[k].itemPrice >= 0 && items[k].itemQuantity >= 0
    ensures SubTotal(items) == LineTotal(items)
  {
  }

  /** The owner's active cart at time `now`; an unrecognized owner has none. */
  function ActiveCartOf(repo: CartRepository, owner: CartOwner, now: int): Option<CartId>
    reads repo
  {
    match owner
    case User(userId, _) => repo.GetActiveCartByUserId(userId)
    case Guest(sessionId, _) => repo.GetActiveCartBySessionId(sessionId, now)
    case Other(_) => None
  }

  /** The find-or-create step of getCartDetailsByOwner. */
  method FindOrCreateCart(repo: CartRepository, owner: CartOwner, now: int) returns (userCart: Option<CartId>)
    requires repo.Valid()
    modifies repo`carts, repo`nextCartId
    ensures repo.Valid()
    // an unrecognized owner: no cart, the store untouched
    ensures owner.Other? ==>
              userCart.None? && repo.carts == old(repo.carts) && repo.nextCartId == old(repo.nextCartId)
    // find: an existing active cart is reused and nothing is inserted
    ensures old(ActiveCartOf(repo, owner, now)).Some? ==>
              userCart == old(ActiveCartOf(repo, owner, now))
              && repo.carts == old(repo.carts) && repo.nextCartId == old(repo.nextCartId)
    // create: otherwise exactly one row is appended, with the fresh id
    ensures !owner.Other? && old(ActiveCartOf(repo, owner, now)).None? ==>
              userCart == Some(old(repo.nextCartId)) && repo.nextCartId == old(repo.nextCartId) + 1
    ensures owner.User? && old(ActiveCartOf(repo, owner, now)).None? ==>
              repo.carts == old(repo.carts) + [UserCartRow(old(repo.nextCartId), owner.userId, now)]
    ensures owner.Guest? && old(ActiveCartOf(repo, owner, now)).None? ==>
              repo.carts == old(repo.carts) + [GuestCartRow(old(repo.nextCartId), owner.sessionId, now)]
    // afterwards the cart is the owner's active cart, so a repeated call creates nothing
    ensures !owner.Other? ==> userCart.Some? && userCart.value > 0 && ActiveCartOf(repo, owner, now) == userCart
  {
    match owner {
      case User(userId, _) =>
        userCart := repo.GetActiveCartByUserId(userId);
        if userCart.None? {
          var created := repo.CreateCartForUser(userId, now);
          userCart := Some(created);
        }
      case Guest(sessionId, _) =>
        userCart := repo.GetActiveCartBySessionId(sessionId, now);
        if userCart.None? {
          var created := repo.CreateCartForGuest(sessionId, now);
          userCart := Some(created);
        }
      case Other(_) =>
        userCart := None;
    }
  }

  /** getCartDetailsByOwner. */
  method GetCartDetailsByOwner(repo: CartRepository, owner: CartOwner, now: int) returns (view: CartView)
    requires repo.Valid()
    modifies repo`carts, repo`nextCartId
    ensures repo.Valid()
    ensures view.ownerType == TypeOf(owner)
    // an unrecognized owner: the empty view, the store untouched
    ensures owner.Other? ==>
              view == CartView(None, 0, [], TypeOf(owner))
              && repo.carts == old(repo.carts) && repo.nextCartId == old(repo.nextCartId)
    // find: an existing active cart is reused and nothing is inserted
    ensures old(ActiveCartOf(repo, owner, now)).Some? ==>
              view.cartId == old(ActiveCartOf(repo, owner, now))
              && repo.carts == old(repo.carts) && repo.nextCartId == old(repo.nextCartId)
    // create: otherwise exactly one row is appended, with the fresh id
    ensures !owner.Other? && old(ActiveCartOf(repo, owner, now)).None? ==>
              view.cartId == Some(old(repo.nextCartId)) && repo.nextCartId == old(repo.nextCartId) + 1
    ensures owner.User? && old(ActiveCartOf(repo, owner, now)).None? ==>
              repo.carts == old(repo.carts) + [UserCartRow(old(repo.nextCartId), owner.userId, now)]
    ensures owner.Guest? && old(ActiveCartOf(repo, owner, now)).None? ==>
              repo.carts == old(repo.carts) + [GuestCartRow(old(repo.nextCartId), owner.sessionId, now)]
    // afterwards the returned cart is the owner's active cart, so a repeated read creates nothing
    ensures !owner.Other? ==> view.cartId.Some? && ActiveCartOf(repo, owner, now) == view.cartId
    // the items are the repository's rows unchanged, totalled at their effective prices
    ensures view.cartId.Some? ==>
              view.cartItems == repo.GetCartItemsByCartId(view.cartId.value)
              && view.subTotal == SubTotal(view.cartItems)
  {
    view := CartView(None, 0, [], TypeOf(owner));

    var userCart := FindOrCreateCart(repo, owner, now);

    // `!userCart?.cartId`: no cart, or the falsy id 0
    if userCart.None? || userCart.value == 0 {
      return;
    }

    var cartItems := repo.GetCartItemsByCartId(userCart.value);
    if |cartItems| == 0 {
      view := view.(cartId := userCart);
      return;
    }

    for i := 0 to |cartItems|
      invariant view == CartView(None, LineTotal(cartItems[..i]), [], TypeOf(owner))
    {
      var item := cartItems[i];
      var price := EffectivePrice(item);
      view := view.(subTotal := view.subTotal + price * item.itemQuantity);
      assert cartItems[..i + 1][..i] == cartItems[..i];
    }
    assert cartItems[..|cartItems|] == cartItems;

    if view.subTotal < 0 {
      view := view.(subTotal := 0);
    }

    view := view.(cartItems := cartItems, cartId := userCart);
  }

  /** Two reads in a row by the same owner at the same time: at most one cart is created,
      and both reads see the same cart. */
  method ReadTwice(repo: CartRepository, owner: CartOwner, now: int) returns (first: CartView, second: CartView)
    requires repo.Valid()
    modifies repo`carts, repo`nextCartId
    ensures repo.Valid()
    ensures |repo.carts| <= |old(repo.carts)| + 1
    ensures old(repo.carts) <= repo.carts
    ensures first.cartId == second.cartId
    ensures first == second
  {
    first := GetCartDetailsByOwner(repo, owner, now);
    second := GetCartDetailsByOwner(repo, owner, now);
  }
}
