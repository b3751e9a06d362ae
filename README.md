# Cart subsystem of the storefront backend, modelled in Dafny

This project models the shopping-cart read path of an Express storefront backend. It covers
five pieces:

- **Cart-owner resolution**: `cartOwnerMiddleware`. Every request becomes a user owner or a
  guest owner. Bad credentials never fail the request; they fall through to the guest flow.
- **Protected-resource authentication**: `authenticateUser`. It runs the same token chain
  with the opposite policy: every failure is a 401, or a 500 for errors that are not JWT errors.
- **The cart store**: `CartRepository`. It is modelled as an in-memory table of cart rows
  with its AUTO_INCREMENT counter, the cart-item rows, and the catalog tables that the item
  listing joins with.
- **The cart read service**: `getCartDetailsByOwner`. It finds or creates the owner's cart,
  lists the cart's items and totals them at their effective prices.
- **Response shaping**: `getCarts`, and the `GET /get-carts` route that puts the middleware
  in front of it.

Modules, one per source file:

- `Credentials`: the request, token extraction and the shared token chain.
- `CartAuth`: `cartAuth.js`.
- `Auth`: `auth.js`.
- `Repository`: `cartRepository.js`.
- `CartService`: `cartService.js`.
- `CartController`: `cartController.js` plus the route.
- `UserLookup`: the two lookups of `db/user.js` that the middlewares call, with the
  findings below.
- `Wrappers`: `Option` and `Fallible`.

Modelling choices:

- External capabilities become values.
  - `jwt.verify`, `checkUserExistsById` and `getUserDetailsById` are function-typed fields
    of `Collaborators`. Each returns `Returned(v)` or `Threw(errorName)`.
  - Minting a session id with `uuidv4` and writing its cookie is a `Fallible<string>`
    parameter. Those are the only steps outside the middleware's inner `try` that can throw.
  - The clock is an integer `now`, in milliseconds.
- JavaScript truthiness is written out.
  - A string is truthy when present and non-empty.
  - `decodedToken?.id` and `cartId` are truthy when present and not `0`.
  - `header.replace("Bearer ", "")` removes only the first occurrence (`RemoveFirst`).
- Prices and quantities are integers (for example cents), not floating point.
- The store is sequential. Every operation sees the effects of the previous one.

Behaviour of the code worth noting, which the model follows:

- A read creates a cart when the owner has none. So for a user or a guest, `getCarts` never
  answers "Cart is empty"; only an owner of another type gets that reply.
- Nothing guarantees one active cart per owner. The lookups return the newest matching row.
- There is no add-to-cart path, stock gate or stored total. The subtotal is recomputed on
  every read.

## Model

| member | source | states |
|---|---|---|
| `Credentials.FirstOccurrence` | src/middlewares/cartAuth.js:10 | The index found is an occurrence of the pattern and no earlier index is one; `None` means the pattern occurs nowhere (the search behind `String.replace` with a string pattern). |
| `Credentials.RemoveFirst` | src/middlewares/cartAuth.js:10 | With no occurrence of the pattern the string is returned unchanged. Otherwise exactly the first occurrence is cut: the text before it and after it is kept, and the length drops by the pattern's length. |
| `Credentials.ExtractToken` | src/middlewares/cartAuth.js:10 | A truthy `accessToken` cookie is the token. Otherwise there is no token without an Authorization header. Otherwise the token is the header with its first "Bearer " removed, when that is non-empty. A token is never empty. |
| `Credentials.BearerHeaderYieldsToken` | src/middlewares/auth.js:7 | With no usable cookie, the header `Bearer <t>` yields exactly `t`. |
| `Credentials.HeaderWithoutBearerIsVerbatim` | src/middlewares/auth.js:7 | A non-empty header that never contains "Bearer " is used verbatim as the token. |
| `Credentials.RemoveFirstCutsOneOccurrence` | src/middlewares/cartAuth.js:10 | Only the first occurrence is cut. The rest of the header is kept and its length drops by exactly the pattern's length. |
| `Credentials.CheckToken` | src/middlewares/auth.js:7-30 | The shared chain in the source's order, each outcome stated by what the collaborators return. There is no token exactly when extraction yields none. A throwing `jwt.verify` stops the chain with its error. A payload without a truthy id gives "missing id". A throwing existence check stops with its error, and a `false` answer gives "unknown user". After a `true` answer, a throwing details lookup stops with its error, and otherwise the chain ends with exactly the row the lookup returned. |
| `CartAuth.TokenUser` | src/middlewares/cartAuth.js:12-32 | There is a user exactly when the token decodes to a payload with a truthy id, the existence check returns `true` for that id, and the details lookup returns a row for it. The user is that row. Every other outcome, throws included, is swallowed and yields no user. |
| `CartAuth.ResolveCartOwner` | src/middlewares/cartAuth.js:7-69 | This is the first-match chain. A token user gives a user owner and no cookie. Otherwise a truthy `cart_session` gives the guest `isNew:false` and no cookie. Otherwise a new id gives the guest `isNew:true` plus the cookie `cart_session` (httpOnly, lax, 30 days in ms). A throw while minting gives 500 "Internal server error", the only halt. A cookie is set exactly for a new guest. |
| `Auth.CaughtError` | src/middlewares/auth.js:34-39 | A thrown error is a 401 "Invalid or expired token" exactly when it is named TokenExpiredError or JsonWebTokenError, and otherwise a 500 "Internal server error". |
| `Auth.AuthenticateUser` | src/middlewares/auth.js:6-41 | No token gives 401 "Authentication token missing". A payload without id gives 401 "Invalid token payload". An unknown user gives 401 "Unauthorized". A throw goes through the catch policy. `next` runs exactly when the details lookup returns, and `req.user` is what it returned. Every refusal is a 401 or a 500. |
| `Auth.RefusalMeansNoCartUser` | src/middlewares/cartAuth.js:16-31 | This is the same condition under opposite policies, in both directions. Whatever the authenticator refuses, the cart middleware does not treat as a user. A cart user is admitted by the authenticator with the same record. An admission with a record makes that record the cart user. |
| `Auth.RefusalsByCollaborator` | src/middlewares/auth.js:9-39 | The authenticator's reply for each collaborator outcome. A throwing `jwt.verify` gives 401 "Invalid or expired token" for a JWT error and 500 otherwise. A payload without id gives 401 "Invalid token payload". A `false` existence answer gives 401 "Unauthorized". A throwing existence check, or a throwing details lookup after a `true` answer, goes through the catch policy. A `true` answer followed by a returned details lookup admits exactly the returned row. |
| `Repository.Latest` | src/db/cartRepository.js:9-10 | `ORDER BY id DESC LIMIT 1`: the result is the id of a selected row, and no selected row has a larger id; a selected row always makes the result present. |
| `Repository.JoinItems` | src/db/cartRepository.js:59-64 | Each view is listed exactly as many times as there are non-deleted item rows of the cart, with product and inventory rows, that produce it. So every such item is listed once and nothing else is listed. |
| `Repository.ListedAsSnoc` | src/db/cartRepository.js:59-64 | Appending an item row adds one to the number of rows producing a view exactly when the new row is listed and produces that view. |
| `Repository.ImagesNeverDropItems` | src/db/cartRepository.js:61 | The primary-image join is a left join, so the image table never changes which items are listed. |
| `Repository.CartRepository.GetActiveCartByUserId` | src/db/cartRepository.js:4-14 | The result is the largest id among the user's non-deleted carts, or nothing when the user has none. |
| `Repository.CartRepository.GetActiveCartBySessionId` | src/db/cartRepository.js:16-27 | The result is the largest id among the session's non-deleted carts whose expiry is absent or after `now`, or nothing. |
| `Repository.CartRepository.CreateCartForUser` | src/db/cartRepository.js:29-35 | It appends exactly one row (this user, no session, no expiry) with the counter's id and advances the counter. Existing rows are unchanged. The new cart is then the user's active cart. |
| `Repository.CartRepository.CreateCartForGuest` | src/db/cartRepository.js:37-46 | It appends exactly one row (this session, expiry now + 30 days) with the counter's id. The new cart is then the session's active cart at every time before it expires. |
| `Repository.CartRepository.NewestSelected` | src/db/cartRepository.js:17-26 | If the last row is selected and no row has a larger id, the query returns that row's id. |
| `Repository.CartRepository.GetCartItemsByCartId` | src/db/cartRepository.js:48-68 | Only non-deleted items of the cart are listed, and only those with product and inventory rows. Each such item is listed exactly once, counted with multiplicity. `inStock` holds exactly when the inventory quantity is at least the item quantity. |
| `CartService.EffectivePrice` | src/service/cartService.js:50-52 | A positive sale price is charged; a NULL or non-positive one gives way to the base price. The price is positive exactly when the sale applies or the base price is positive. |
| `CartService.LineTotalAppend` | src/service/cartService.js:49-54 | The line total is additive: the total of a cart is the sum of the totals of any split of its items. |
| `CartService.LineTotal` | src/service/cartService.js:49-54 | The sum of effective price × quantity over the items, in the loop's order, never goes below zero when every base price and quantity is non-negative, because a sale price is charged only when positive. |
| `CartService.SubTotal` | src/service/cartService.js:56-59 | The subtotal is the line total clamped at zero: at least zero, at least the line total, and one of the two. |
| `CartService.SubTotalOfNonNegativeItems` | src/service/cartService.js:56-59 | The clamp changes nothing for items with non-negative prices and quantities. |
| `CartService.FindOrCreateCart` | src/service/cartService.js:16-35 | An existing active cart is reused and nothing is inserted. Otherwise a user or guest gets exactly one new row with the counter's id. An owner of another type gets no cart and the store is untouched. Afterwards the cart is the owner's active cart. |
| `CartService.GetCartDetailsByOwner` | src/service/cartService.js:8-64 | `ownerType` is the owner's type. An owner of another type gets `{cartId:null, subTotal:0, cartItems:[]}`. The find-or-create outcomes are as above. With a cart, `cartItems` are the repository rows unchanged and in order, and `subTotal` is max(0, Σ effective price × quantity). This includes an empty cart, which gets 0 and no items. |
| `CartService.ReadTwice` | src/service/cartService.js:19-34 | Two reads in a row by one owner at one time create at most one cart and change no existing row: the old table is a prefix of the new one. Both reads return the same view. |
| `CartController.ShapeCartResponse` | src/controller/cartController.js:16-48 | A service throw gives 500 "Internal Server Error". Otherwise the status is 200 and `success` holds exactly when the data has a truthy `cartId`. Then `cartData` is the service result unchanged, with the guest or non-guest message. Without one, the reply is "Cart is empty" with `{cartId:null, subTotal:0, cartItems:[], ownerType}`. |
| `CartController.GetCarts` | src/controller/cartController.js:5-50 | A missing owner gives 401 "Cart owner information missing" and the service is not run. A user or guest gets 200 and success with its found or created cart, the repository's items and the clamped subtotal. Another owner type gets "Cart is empty" and the store is untouched. Reusing an active cart leaves the rows and the id counter unchanged. |
| `CartController.GetCartsRoute` | src/routes/cartRoutes.js:7-10 | The controller's 401 never happens behind the middleware. A 500 happens exactly when minting a session fails, and then the store is untouched and no cookie is written. Every 200 carries a cart id, that cart's repository items, their clamped subtotal, and `ownerType` "user" for a token user and "guest" otherwise. A token user, and a returning guest, gets its active cart: reused with the store untouched when it exists, otherwise exactly one row inserted for it. A returning guest keeps its session cart without a new cookie. A first visit, or a bad token without a session cookie, gets a new session cookie and a newly created guest cart. |
| `UserLookup.CheckUserExistsByIdAsWritten` | src/db/user.js:4-13 | The existence check as written throws on every call, whatever the id: the query parameter is an undefined variable. |
| `UserLookup.GetUserDetailsByIdAsWritten` | src/db/user.js:14-26 | The details lookup as written throws on every call: the SELECT list is malformed. |
| `UserLookup.CheckUserExistsById` | src/db/user.js:4-13 | The intended check returns, and answers `true` exactly when a user with that id is stored. |
| `UserLookup.GetUserDetailsById` | src/db/user.js:14-26 | The intended lookup returns a row exactly when a user with that id is stored, and that row is the stored record. |
| `UserLookup.ExistenceCheckAsWrittenRefusesEveryone` | src/db/user.js:4-13 | With the existence check as written, a valid token carrying an id gets a 500 from the authenticator and a guest from the cart middleware. |
| `UserLookup.DetailsLookupAsWrittenRefusesEveryone` | src/db/user.js:14-26 | With the details lookup as written, no request is admitted or resolved to a user. |
| `UserLookup.IntendedLookupsResolveStoredUsers` | src/db/user.js:4-26 | With lookups over a users table, a valid token for a stored user is admitted with that user's record and becomes the cart owner. A valid token for any other user gets 401 "Unauthorized" and a guest cart. |

## Left out

- JWT signing and verification: modelled as an oracle, not implemented.
- UUID generation: modelled as a parameter, not implemented.
- The clocks (`NOW()` in the database, `new Date()` in the process): one integer `now`.
- "+30 days" is a fixed count of milliseconds, not calendar arithmetic, so daylight-saving
  shifts are not modelled.
- Logging (`console.error`) is not modelled.
- The `updated_at` column is not modelled.
- The SQL text, the connection pool and the database driver are not modelled. The store is
  the table semantics only. `config/db.js` is not part of this model.
- Concurrency is not modelled. Two simultaneous requests can both miss the active cart and
  both insert one; the code has no uniqueness guard and the model does not claim one.
- The OAuth login flow, user registration, the catalog and dashboard listings, and the
  Express wiring are not modelled: they lie outside the cart subsystem.
- Repository.CartRepository.GetCartItemsByCartId: states which rows are listed and how many
  times, but not their order. The query has no ORDER BY, and the model lists them in
  table order.
- Repository.JoinItems: assumes at most one inventory row and one primary image per product
  (maps keyed by product id). A product with several would repeat its items in the SQL join.
- CartAuth.ResolveCartOwner: `next()` being called once is built into the `Proceed` result
  rather than counted. An exception thrown by `next()` itself is not modelled.
- CartService.GetCartDetailsByOwner: the in-memory store never throws, so the repository
  failures that would reach the controller's 500 are modelled only in
  `CartController.ShapeCartResponse`.
- CartController.GetCartsRoute: a newly created guest cart is stated only when the minted id
  has no active cart yet. UUID uniqueness is outside the model.
- The `Other` owner type stands for an owner whose `type` is neither "user" nor "guest"; the
  `CartOwner` subset type enforces this, so testing the variant (`owner.Guest?`) and comparing
  the `type` tag with "guest" agree (`TypeOf`).
- Cookie parsing and route mounting are assumed. `src/app.js` imports `cookie-parser` but
  never installs it, and never mounts the cart router. As wired, `req.cookies` would be
  undefined and `GET /get-carts` unreachable. The model takes the cookies as parsed and the
  route as mounted.
- UserLookup.GetUserDetailsById: assumes the returned row carries the `userId` field. In
  PostgreSQL the unquoted alias `userId` folds to `userid`, so even with the comma fixed
  `user.userId` in `src/middlewares/cartAuth.js:23` would be undefined, and the user owner's
  `userId` would be missing. The model keeps the intended field.

## Findings

| source | as written | input that shows it | evidently intended | confidence | as-written member | corrected member |
|---|---|---|---|---|---|---|
| src/db/user.js:4-13 | `checkUserExistsById(id)` binds the undefined variable `email` as its query parameter (and filters on the email column), so it always throws a ReferenceError | any request with a valid token whose payload has an id | answer whether a user with that id exists | high, not executed | `UserLookup.ExistenceCheckAsWrittenRefusesEveryone` | `UserLookup.IntendedLookupsResolveStoredUsers` |
| src/db/user.js:14-26 | the SELECT list of `getUserDetailsById` ends with a comma before FROM, so the query is rejected on every call | any request whose token user exists | return the user's details row | high, not executed | `UserLookup.DetailsLookupAsWrittenRefusesEveryone` | `UserLookup.IntendedLookupsResolveStoredUsers` |
