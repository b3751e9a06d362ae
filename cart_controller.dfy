/** The get-carts controller and the route that puts the cart-owner middleware in front of it. */
module CartController {
  import opened Wrappers
  import opened Credentials
  import opened CartAuth
  import opened Repository
  import opened CartService

  /** The JSON body: `cartData` is absent from the error replies. */
  datatype ResponseBody = ResponseBody(success: bool, message: string, cartData: Option<CartView>)

  datatype HttpResponse = HttpResponse(status: int, body: ResponseBody)

  const OwnerMissing: HttpResponse := HttpResponse(401, ResponseBody(false, "Cart owner information missing", None))
  const ServerError: HttpResponse := HttpResponse(500, ResponseBody(false, "Internal Server Error", None))

  /** `cartData?.cartId` is truthy: present and not the number 0. */
  predicate HasCartId(view: CartView) {
    view.cartId.Some? && view.cartId.value != 0
  }

  /** The view reported for an empty cart. */
  function EmptyCartView(owner: CartOwner): CartView {
    CartView(None, 0, [], TypeOf(owner))
  }

  function SuccessMessage(owner: CartOwner): string {
    if owner.Guest? then "Guest cart data fetched successfully"
    else "Cart data fetched successfully"
  }

  /** The reply once an owner is present, from what the service returned or threw. */
  function ShapeCartResponse(owner: CartOwner, data: Fallible<CartView>): (r: HttpResponse)
    ensures r.status == 500 <==> data.Threw?
    ensures data.Threw? ==> r == ServerError
    ensures data.Returned? ==> r.status == 200 && r.body.cartData.Some?
    ensures data.Returned? ==> (r.body.success <==> HasCartId(data.value))
    ensures data.Returned? && HasCartId(data.value) ==>
              r.body == ResponseBody(true, SuccessMessage(owner), Some(data.value))
    ensures data.Returned? && !HasCartId(data.value) ==>
              r.body == ResponseBody(false, "Cart is empty", Some(EmptyCartView(owner)))
  {
    match data
    case Threw(_) => ServerError
    case Returned(cartData) =>
      if !HasCartId(cartData) then
        HttpResponse(200, ResponseBody(false, "Cart is empty", Some(EmptyCartView(owner))))
      else
        HttpResponse(200, ResponseBody(true, SuccessMessage(owner), Some(cartData)))
  }

  /** getCarts. The in-memory store never throws, so the 500 reply of ShapeCartResponse
      is not reached from here. */
  method GetCarts(repo: CartRepository, cartOwner: Option<CartOwner>, now: int) returns (res: HttpResponse)
    requires repo.Valid()
    modifies repo`carts, repo`nextCartId
    ensures repo.Valid()
    // no owner: refused before the service runs, the store untouched
    ensures cartOwner.None? ==>
              res == OwnerMissing && repo.carts == old(repo.carts) && repo.nextCartId == old(repo.nextCartId)
    // a user or guest always gets its (found or created) cart, totalled
    ensures cartOwner.Some? && !cartOwner.value.Other? ==>
              var owner := cartOwner.value;
              && res.status == 200 && res.body.success
              && res.body.message == SuccessMessage(owner)
              && res.body.cartData.Some? && res.body.cartData.value.cartId.Some?
              && res.body.cartData.value.cartId == ActiveCartOf(repo, owner, now)
              && res.body.cartData.value.cartItems == repo.GetCartItemsByCartId(res.body.cartData.value.cartId.value)
              && res.body.cartData.value.subTotal == SubTotal(res.body.cartData.value.cartItems)
              && res.body.cartData.value.ownerType == TypeOf(owner)
    // the store changes only by the cart find-or-create inserts
    ensures cartOwner.Some? && old(ActiveCartOf(repo, cartOwner.value, now)).Some? ==>
              && repo.carts == old(repo.carts) && repo.nextCartId == old(repo.nextCartId)
              && res.body.cartData.value.cartId == old(ActiveCartOf(repo, cartOwner.value, now))
    ensures cartOwner.Some? && cartOwner.value.Guest? && old(ActiveCartOf(repo, cartOwner.value, now)).None? ==>
              res.body.cartData.value.cartId == Some(old(repo.nextCartId))
              && repo.carts == old(repo.carts) + [GuestCartRow(old(repo.nextCartId), cartOwner.value.sessionId, now)]
    ensures cartOwner.Some? && cartOwner.value.User? && old(ActiveCartOf(repo, cartOwner.value, now)).None? ==>
              res.body.cartData.value.cartId == Some(old(repo.nextCartId))
              && repo.carts == old(repo.carts) + [UserCartRow(old(repo.nextCartId), cartOwner.value.userId, now)]
    // an unrecognized owner is told its cart is empty
    ensures cartOwner.Some? && cartOwner.value.Other? ==>
              && res == HttpResponse(200, ResponseBody(false, "Cart is empty", Some(EmptyCartView(cartOwner.value))))
              && repo.carts == old(repo.carts) && repo.nextCartId == old(repo.nextCartId)
  {
    if cartOwner.None? {
      res := OwnerMissing;
      return;
    }
    var cartData := GetCartDetailsByOwner(repo, cartOwner.value, now);
    res := ShapeCartResponse(cartOwner.value, Returned(cartData));
  }

  /** `GET /get-carts`: the cart-owner middleware, then getCarts when it calls next().
      Returns the response and the cookie written on the way. */
  method GetCartsRoute(
    repo: CartRepository, req: Request, env: Collaborators, newSession: Fallible<string>, now: int)
    returns (res: HttpResponse, setCookie: Option<Cookie>)
    requires repo.Valid()
    modifies repo`carts, repo`nextCartId
    ensures repo.Valid()
    // the middleware always sets an owner, so the controller's 401 never happens
    ensures res.status == 200 || res.status == 500
    ensures res.status == 500 <==>
              TokenUser(req, env).None? && !Truthy(req.cartSessionCookie) && newSession.Threw?
    ensures res.status == 500 ==>
              && res.body == ResponseBody(false, "Internal server error", None)
              && repo.carts == old(repo.carts) && repo.nextCartId == old(repo.nextCartId)
              && setCookie.None?
    // every served owner gets its cart's items, totalled, under its own type
    ensures res.status == 200 ==>
              && res.body.success
              && res.body.cartData.Some?
              && res.body.cartData.value.ownerType == (if TokenUser(req, env).Some? then "user" else "guest")
              && res.body.cartData.Some? && res.body.cartData.value.cartId.Some?
              && res.body.cartData.value.cartItems == repo.GetCartItemsByCartId(res.body.cartData.value.cartId.value)
              && res.body.cartData.value.subTotal == SubTotal(res.body.cartData.value.cartItems)
    // a logged-in user's cart
    ensures TokenUser(req, env).Some? ==>
              setCookie.None? && res.body.message == "Cart data fetched successfully"
              && res.body.cartData.Some?
              && res.body.cartData.value.cartId == repo.GetActiveCartByUserId(TokenUser(req, env).value.userId)
    // ... which is reused when it exists, and otherwise the one row inserted
    ensures TokenUser(req, env).Some? ==>
              var uid := TokenUser(req, env).value.userId;
              if old(repo.GetActiveCartByUserId(uid)).Some?
              then repo.carts == old(repo.carts) && repo.nextCartId == old(repo.nextCartId)
              else repo.carts == old(repo.carts) + [UserCartRow(old(repo.nextCartId), uid, now)]
    // a returning guest: no new cookie, the session's active cart
    ensures TokenUser(req, env).None? && Truthy(req.cartSessionCookie) ==>
              setCookie.None? && res.body.message == "Guest cart data fetched successfully"
              && res.body.cartData.Some? && res.body.cartData.value.cartId
                 == repo.GetActiveCartBySessionId(req.cartSessionCookie.value, now)
    ensures TokenUser(req, env).None? && Truthy(req.cartSessionCookie) ==>
              var sid := req.cartSessionCookie.value;
              if old(repo.GetActiveCartBySessionId(sid, now)).Some?
              then repo.carts == old(repo.carts) && repo.nextCartId == old(repo.nextCartId)
              else repo.carts == old(repo.carts) + [GuestCartRow(old(repo.nextCartId), sid, now)]
    // a first visit (or a bad token without a session cookie): a new session and its cookie
    ensures TokenUser(req, env).None? && !Truthy(req.cartSessionCookie) && newSession.Returned? ==>
              setCookie == Some(SessionCookie(newSession.value))
              && res.body.message == "Guest cart data fetched successfully" && res.body.cartData.Some?
    // ... and, for a minted id that no cart uses yet, a freshly created cart
    ensures TokenUser(req, env).None? && !Truthy(req.cartSessionCookie) && newSession.Returned?
            && old(repo.GetActiveCartBySessionId(newSession.value, now)).None? ==>
              res.body.cartData.value.cartId == Some(old(repo.nextCartId))
              && repo.carts == old(repo.carts) + [GuestCartRow(old(repo.nextCartId), newSession.value, now)]
  {
    var resolution := ResolveCartOwner(req, env, newSession);
    match resolution {
      case Halt(reply) =>
        res := HttpResponse(reply.status, ResponseBody(reply.success, reply.message, None));
        setCookie := None;
      case Proceed(owner, cookie) =>
        setCookie := cookie;
        res := GetCarts(repo, Some(owner), now);
    }
  }
}
