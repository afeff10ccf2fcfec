# Order placement, catalog, login lockout and user listing — a Dafny model

This project models the core of a small Express/MongoDB order-management backend:

- **Order placement** (`createOrder`, `listOrders`). The service looks a product up by id. It refuses the order when the product is missing or holds less stock than requested; both refusals are the same `null` reply. Otherwise it lowers the product's `quantity` in place, saves the product and records the order `(customerName, product, quantity)`. `OrdersService.OrderBook` holds the order list and a reference to the `ProductsService.Catalog` it draws stock from. `OrdersService.PlaceOrder` is the specification of one call. `OrdersService.Run` folds it over a sequence of calls.
- **The catalog** (`getProducts`, `getProduct`, `createProduct`, `updateProduct`, `deleteProduct`). `ProductsService.Catalog` is a class over a map from product id to product record. Each write is specified by a pure step function (`CreateStep`, `UpdateStep`, `DeleteStep`) that gives the new table and the reply.
- **The request-body rules** of the product and order routes (the Joi schemas). They are predicates over a JSON body (`RequestBody.Body`, a map from field name to JSON value), with functions that extract the typed arguments a valid body carries. These rules are the only thing that keeps a stored `quantity` a whole number ≥ 0. `StockInvariant.StockNeverNegative` proves that no mix of create, update, delete and order requests makes any stored quantity negative.
- **The login lockout** in the login handler. A process-wide table maps each email to `{attempts, lastAttempt}`. After 5 failures the email is refused with FORBIDDEN for 30 minutes from its last failed attempt, before its credentials are checked. `AuthenticationController.LoginGuard` is a class over that table. `LoginStep` is the specification of one call.
- **The users service**:
  - the arguments of the user listing (sort `field:desc` parsing, the trimmed search text with one leading `email:` removed, `skip`);
  - the reply of the listing (`total_pages`, `has_previous_page`, `has_next_page`, `count`, and the password-free projection);
  - the existence-guarded writes on the user table.

What becomes a parameter:
- The clock reading (`now`, milliseconds) and what the credential check does (`check`: accepts, rejects or throws) are parameters of a login.
- A repository call that throws inside a service's `try`/`catch` is the parameter `repoFails`. The service answers `null` (`ok == false`) and the table is unchanged.
- Ids that MongoDB generates are parameters. An id that is already taken stands for a duplicate-key insert error, which the service also turns into `null`.
- Password hashes are passed in already computed.
- For the user listing, the page of users and the match count that the repository returns are parameters.

What the code does, and therefore what the model does:
- `createOrder` has no atomic conditional decrement, no distinct errors for a missing product and for too little stock, and no stock release when the order insert fails. It does an unguarded read, check, decrement and `save()`, and answers `null` for both refusals. The model is sequential and has one refusal result.
- `customerName` follows the schema's rule `joi.string()`, which refuses the empty string.

## Model

| member | source | states |
|---|---|---|
| `OrdersService.PlaceOrder` | src/api/components/orders/orders-service.js:4-20 | an order is placed iff the product exists and its stock is at least the requested quantity. A placed order is `(customerName, product, quantity)`. On success only that product's quantity drops by exactly the requested amount and its other fields stay. On refusal the table is unchanged. No other product changes, the ids stay the same, and non-negative stock stays non-negative |
| `OrdersService.OrderBook.CreateOrder` | src/api/components/orders/orders-service.js:4-20 | the step-by-step lookup, check, decrement, save and append gives exactly `PlaceOrder`'s table and result. The order list gains the placed order and nothing else, or is unchanged on refusal |
| `OrdersService.OrderBook.ListOrders` | src/api/components/orders/orders-service.js:22-24 | returns every recorded order, in the order they were placed |
| `OrdersService.Run` | src/api/components/orders/orders-service.js:4-20 | over a sequence of calls: the product ids stay the same, no more orders are recorded than there were calls, every recorded order names a product in the table, and non-negative stock stays non-negative |
| `OrdersService.NoOverselling` | src/api/components/orders/orders-service.js:5-19 | over any sequence of calls, a product with initial stock S ≥ 0 ends with S minus the quantities ordered of it, and those quantities add up to at most S |
| `OrdersService.RefusalIsStable` | src/api/components/orders/orders-service.js:11-13 | a call refused for lack of stock changes nothing, and repeating it against the unchanged table is refused again |
| `OrdersService.TwoOrdersOfSevenAgainstTen` | src/api/components/orders/orders-service.js:11-19 | with stock 10, two orders of 7: the first is placed and leaves 3, the second is refused |
| `ProductsService.CreateStep` | src/api/components/products/products-service.js:29-37 | the create succeeds iff the repository does not throw and the id is new. On success the table gains exactly that product under that id; otherwise the table is unchanged. Existing entries are kept. A non-negative quantity keeps the stock invariant |
| `ProductsService.UpdateStep` | src/api/components/products/products-service.js:49-62 | the update succeeds iff the id exists and the repository does not throw. The ids stay the same and only that product changes, to the patched record. A non-negative quantity keeps the stock invariant |
| `ProductsService.DeleteStep` | src/api/components/products/products-service.js:69-82 | the delete succeeds iff the id exists and the repository does not throw. It removes exactly that id and keeps every other entry; on failure the table is unchanged |
| `ProductsService.Catalog.GetProducts` | src/api/components/products/products-service.js:7-9 | returns exactly the stored (id, product) pairs |
| `ProductsService.Catalog.GetProduct` | src/api/components/products/products-service.js:16-18 | returns the stored record for a present id and nothing for an absent id |
| `ProductsService.Catalog.CreateProduct` | src/api/components/products/products-service.js:29-37 | the new table and the reply are those of `CreateStep` |
| `ProductsService.Catalog.UpdateProduct` | src/api/components/products/products-service.js:49-62 | the existence check comes first, then the write; the new table and the reply are those of `UpdateStep` |
| `ProductsService.Catalog.DeleteProduct` | src/api/components/products/products-service.js:69-82 | the existence check comes first, then the removal; the new table and the reply are those of `DeleteStep` |
| `ProductsService.Catalog.Save` | src/api/components/orders/orders-service.js:15-17 | writing back a loaded product replaces that one entry and keeps the set of ids |
| `ProductsValidator.ValidCreateProduct` | src/api/components/products/products-validator.js:4-12 | the createProduct schema: every field is required. The name is a non-empty string whose JavaScript length (UTF-16 code units) is at most 100, the description and category are non-empty strings, the price is a number > 0, and the quantity is a whole number ≥ 0 within the safe-integer range |
| `RequestBody.Utf16Length` | src/api/components/products/products-validator.js:6 | a string's JavaScript `length`, which Joi's `max` bounds: at least one and at most two code units per character |
| `ProductsValidator.AstralNameRefused` | src/api/components/products/products-validator.js:6 | a name of 51 characters above U+FFFF is 102 code units long, so the name rule refuses it |
| `ProductsValidator.ValidUpdateProduct` | src/api/components/products/products-validator.js:14-22 | the updateProduct schema: the quantity is required, as in create. Each other field may be left out, but when present it is constrained as in create |
| `ProductsValidator.ValidOrderProduct` | src/api/components/products/products-validator.js:24-29 | the orderProduct schema: a required non-empty product id and a required whole quantity ≥ 1 |
| `ProductsValidator.NewProduct` | src/api/components/products/products-validator.js:4-12 | a valid create body gives a product with the body's fields. Its name is non-empty and at most 100 UTF-16 code units long, its description and category are non-empty, its price is > 0 and its quantity is a whole number ≥ 0 |
| `ProductsValidator.UpdateOf` | src/api/components/products/products-validator.js:14-22 | a valid update body always carries a whole quantity ≥ 0. An optional field is in the update iff it is in the body, and then it holds the body's value. A name that is present is non-empty and at most 100 UTF-16 code units long, a description or category that is present is non-empty, and a price that is present is > 0 |
| `ProductsValidator.OrderProductQuantity` | src/api/components/products/products-validator.js:24-29 | a valid orderProduct body carries a whole quantity ≥ 1 |
| `ProductsValidator.RefusedQuantities` | src/api/components/products/products-validator.js:10-20 | a body whose quantity is missing, not a number, negative or fractional passes neither the create rule nor the update rule |
| `ProductsValidator.ValidatedCreateKeepsStock` | src/api/components/products/products-validator.js:10 | a create with a validated body keeps every stored quantity ≥ 0 |
| `ProductsValidator.ValidatedUpdateWritesBody` | src/api/components/products/products-service.js:49-62 | a validated update of a stored product that the repository carries out succeeds. It writes the body's quantity and every other field the body carries, and keeps each stored field the body leaves out |
| `ProductsValidator.ValidatedUpdateKeepsStock` | src/api/components/products/products-validator.js:20 | an update with a validated body keeps every stored quantity ≥ 0 |
| `OrdersValidator.ValidCreateOrder` | src/api/components/orders/orders-validator.js:4-10 | the createOrder schema: a required non-empty customer name, a required non-empty product id and a required whole quantity ≥ 1 |
| `OrdersValidator.OrderRequestOf` | src/api/components/orders/orders-validator.js:4-10 | a valid order body gives a non-empty customer name, a non-empty product id and a whole quantity ≥ 1, all taken from the body |
| `OrdersValidator.ValidatedOrderLowersStock` | src/api/components/orders/orders-validator.js:8 | an order that passed validation and is placed strictly lowers the product's stock |
| `StockInvariant.StockNeverNegative` | src/api/components/products/products-validator.js:10-20 | over any sequence of create, update, delete and order requests, each behind its body rule, no stored quantity becomes negative |
| `JsMath.CeilDiv` | src/api/components/users/users-service.js:36 | `Math.ceil(a / b)` for b > 0 is the whole number r with (r − 1)·b < a ≤ r·b |
| `JsMath.CeilDivUnique` | src/api/components/users/users-service.js:36 | only one whole number satisfies that bound, so it is the ceiling |
| `AuthenticationController.RemainingMinutes` | src/api/components/authentication/authentication-controller.js:23-26 | the reported minutes are the ceiling of (window − elapsed) / 60000, and they lie in 1..30 when 0 ≤ elapsed < window |
| `AuthenticationController.LoginStep` | src/api/components/authentication/authentication-controller.js:15-68 | while locked (≥ 5 attempts and less than 30 minutes since the last one), the login is FORBIDDEN and the table is unchanged, even with correct credentials. Otherwise a success removes the email's entry. A credential check that throws passes its error on: an expired entry is already gone, and nothing is counted. A failure answers INVALID_CREDENTIALS and sets the entry to (count + 1, now), or to (1, now) if the entry was absent or expired. No other email's entry changes. Counts between 1 and 5 stay between 1 and 5 |
| `AuthenticationController.LoginGuard.Login` | src/api/components/authentication/authentication-controller.js:15-68 | the step-by-step check, delete, increment and delete on the table gives exactly `LoginStep`'s table and reply |
| `AuthenticationController.FailuresCount` | src/api/components/authentication/authentication-controller.js:43-53 | failures short of the limit are counted one by one, whatever their timing, and the last one's time is recorded |
| `AuthenticationController.FiveFailuresLock` | src/api/components/authentication/authentication-controller.js:20-30 | five failures on a fresh email lock it. Within the window after the last failure, any login is refused, even one with correct credentials |
| `UsersService.Trim` | src/api/components/users/users-service.js:21 | `trim()` keeps a middle piece of the string, with only white space removed on each side, and the piece has no white space at either end |
| `UsersService.TrimUnpads` | src/api/components/users/users-service.js:21 | trimming a white-space-padded string that has nothing to trim gives that string back |
| `UsersService.StripEmailPrefix` | src/api/components/users/users-service.js:21 | a string starting with `email:` in any case loses exactly that prefix; any other string is unchanged |
| `UsersService.SearchText` | src/api/components/users/users-service.js:21 | a missing or empty search gives "". Otherwise the search is trimmed and then loses one leading `email:` |
| `UsersService.SearchQueryOf` | src/api/components/users/users-service.js:23 | the filter matches everything iff the search text is empty; otherwise it carries the search text |
| `UsersService.SearchDropsPrefix` | src/api/components/users/users-service.js:21 | white space, then `email:` in any case, then a term, then white space: the search text is the term alone |
| `UsersService.OnePrefixRemoved` | src/api/components/users/users-service.js:21 | only one prefix is removed: `email:email:x` searches for `email:x` |
| `UsersService.UpTo` | src/api/components/users/users-service.js:16 | the first piece of `split(c)` is the longest prefix without `c`, and `c` follows it when it is not the whole string |
| `UsersService.ParseSort` | src/api/components/users/users-service.js:13-19 | no sort gives (null, 1). Otherwise the field is the part before the first `:`, and the order is −1 exactly when there is a second `:`-separated piece and it is `desc`; else it is 1 |
| `UsersService.ParseFieldAndOrder` | src/api/components/users/users-service.js:13-19 | `f:o`, alone or followed by further `:` pieces, sorts by `f`, with order −1 iff `o` is `desc` |
| `UsersService.ParseFieldOnly` | src/api/components/users/users-service.js:13-19 | a bare `f` sorts by `f` with order 1 |
| `UsersService.ParseIgnoresThirdPiece` | src/api/components/users/users-service.js:16-18 | `f:desc:x` still sorts by `f` with order −1 |
| `UsersService.ThirdPieceNotOrder` | src/api/components/users/users-service.js:16-18 | only the second piece decides the order: `a:b:desc` with `b` other than `desc` sorts ascending |
| `UsersService.Public` | src/api/components/users/users-service.js:45-49 | a listed or looked-up user is shown as its id, name and email; the type has no password field |
| `UsersService.TotalPages` | src/api/components/users/users-service.js:36 | for a positive page size, the page count n is the whole number with (n − 1)·pageSize < totalUsers ≤ n·pageSize, and it is 0 iff there are no users. A zero page size gives NaN when there are no users and Infinity otherwise |
| `UsersService.LessThan` | src/api/components/users/users-service.js:44 | JavaScript's `<` against the page count: an ordinary comparison with a whole number, always true below Infinity, always false against NaN |
| `UsersService.Skip` | src/api/components/users/users-service.js:25 | the number of records before the page is (pageNumber − 1) · pageSize |
| `UsersService.SkipIsWholePages` | src/api/components/users/users-service.js:25 | from page 1 on with a positive page size, `skip` is ≥ 0 and a multiple of the page size |
| `UsersService.PageInRange` | src/api/components/users/users-service.js:25-36 | a page starts before the end of the matches iff its number is at most `total_pages` |
| `UsersService.UsersQueryOf` | src/api/components/users/users-service.js:12-33 | the repository gets the parsed filter, the parsed sort, the page size as the limit, and a skip of exactly (pageNumber − 1) · pageSize. From page 1 on with a positive page size, that skip is a whole, non-negative number of pages |
| `UsersService.Project` | src/api/components/users/users-service.js:45-49 | the projection keeps the order and the length, and each record carries only the user's id, name and email |
| `UsersService.UsersPageOf` | src/api/components/users/users-service.js:35-50 | `count` is the number of returned records, and each record is the password-free projection of the user at that position. `total_pages` is `TotalPages`. `has_previous_page` holds iff the page number is > 1. For a positive page size, `has_next_page` holds iff more matches lie beyond this page (pageNumber·pageSize < totalUsers) |
| `UsersService.UserDirectory.GetUser` | src/api/components/users/users-service.js:58-71 | a present id gives its id, name and email (no password); an absent id gives nothing |
| `UsersService.UserDirectory.UserByEmail` | src/api/components/users/users-repository.js:87-89 | the lookup by email finds a user iff some stored user has that email, and the user it finds is stored and has that email |
| `UsersService.UserDirectory.EmailIsRegistered` | src/api/components/users/users-service.js:144-152 | the email counts as registered iff some stored user has it. This follows from the lookup's contract |
| `UsersService.UserDirectory.CreateUser` | src/api/components/users/users-service.js:80-91 | the user is stored under a new id with the hashed password; a throwing insert answers `null` and changes nothing |
| `UsersService.UserDirectory.UpdateUser` | src/api/components/users/users-service.js:100-115 | an unknown id answers `null` and changes nothing. Otherwise only that user's name and email change, and the password is kept |
| `UsersService.UserDirectory.DeleteUser` | src/api/components/users/users-service.js:122-137 | an unknown id answers `null` and changes nothing; otherwise exactly that user is removed |
| `UsersService.UserDirectory.ChangePassword` | src/api/components/users/users-service.js:171-191 | an unknown id answers `null` and changes nothing; otherwise only that user's password hash changes |

## Left out

- Concurrency. Calls are modelled one after another. In the source, `createOrder` awaits between reading the product and saving it (src/api/components/orders/orders-service.js:5-17), so two concurrent orders can both pass the stock check. The login handler also awaits the credential check between reading and updating the attempts table. Neither interleaving is modelled.
- Store failures inside `createOrder`. The service catches nothing there. A failing `save()`, or a failing order insert after the save, propagates to the caller. In the second case the stock is lowered with no order recorded. The model has no failure path for `createOrder`.
- Store failures that the services do not catch: a malformed id making `findById` throw, or `updateOne` throwing in `changePassword`.
- UsersService.UserDirectory.ChangePassword: the `!changeSuccess` branch (src/api/components/users/users-service.js:186-188) is not modelled. The repository's `updateOne` resolves to a result object, which is always truthy, so that branch never runs.
- `createdAt`. The controller passes it, but the service drops it and the schema default stamps the order. The timestamp is opaque, so orders carry none.
- Controllers and routes: HTTP status codes and messages. The `orderProduct` handler calls a `productService.orderProduct` that the products service does not export. Only its body rule is modelled (`ValidOrderProduct`), not an order operation behind it.
- Joi behaviour that depends on the celebrate wrapper's options, which is not part of this model. These are the conversion of numeric strings to numbers and the refusal of unknown body keys. The body rules constrain the listed fields only. A number is taken as exact (a real) and bounded by the safe-integer range.
- The `updateProduct` treatment of fields that are left out of the body. The model keeps the stored value, as Mongoose does when it strips `undefined` from `$set`. A Mongoose configuration that stores them as unset is not modelled.
- MongoDB query semantics: the case-insensitive `$regex` built from the unescaped search text, sorting, `skip` and `limit`. The listing takes the repository's page and match count as given.
- Parsing of `pageNumber` and `pageSize` from the query string, which happens in a controller that is not part of this model. They are whole numbers here. JavaScript's `-0` from `Math.ceil` of a small negative quotient is not told apart from 0.
- UsersService.TotalPages: for a negative page size, the contract states only that the page count is not positive, not its exact value.
- Emails that name a property every JavaScript object already has, such as `constructor` or `__proto__`. The attempts table is a plain object, so for such an email the lookup finds an inherited value. `attempts++` then stores `NaN` on a built-in object, and the email never locks. The model treats every email as its own map key. The login body rule is not part of this model, so whether it refuses such emails is not stated here.
- The separate `Date.now()` readings within one login. One `now` stands for all of them.
- Password hashing and comparison, and `checkPassword` (which dereferences a user that may be missing).
- Growth of the attempts table. Entries for emails that never log in again are never removed. This is a resource concern that the model does not state.
