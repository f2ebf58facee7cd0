# Merchandise inventory backend, modelled in Dafny

This project models the HTTP handlers of the merchandise inventory backend
(`Backend/main.py`) as operations on five in-memory tables: users, login
activity, products, reviews and photos. It also models the low-stock monitor
that e-mails a report of the products below their reorder threshold.

The model has two layers:

- **Pure modules.** `Accounts`, `Catalog`, `Reviews`, `Photos` and `Monitor`
  define each handler as a function. The function takes the tables it reads
  and returns the reply together with the new table. These functions carry
  the properties of the handlers, and the lemmas beside them relate several
  calls.
- **`Service.Store`.** This class holds the tables as `seq` fields. It has one
  method per handler. Each method performs its lookup and updates its row
  step by step. It is proved to produce the same reply and table as the
  matching function, and to keep the table invariant `Valid`:
  - e-mails are unique;
  - product names are unique;
  - ids count up from 1;
  - every login row, review and photo refers to a user (and product) that exists.

Supporting modules:

- **`Query`** models the three ORM queries the handlers use:
  - `filter(...).first()` as `First`, the index of the first matching row;
  - `filter(...).all()` as `Where`, the matching rows in table order;
  - `distinct()` as `Distinct`.
- **`Text`** models three pieces of Python string behaviour:
  - `str.strip()`, used by the review check;
  - the decimal rendering of an `int`, used by the e-mail body;
  - the UTF-8 encoding of a password, whose first 72 bytes bcrypt hashes.
- **`Records`** holds the rows, the error replies and the idealised password
  hash.

Some behaviours of the code are kept as written:

- `purchase_items` reads a field called `product_id` but compares it with the
  product NAME.
- `create_review` compares its `product_id` with the product id.
- A purchase commits every item as soon as that item passes its checks. When a
  later item fails, the earlier decrements stay applied.
- `add_or_update_product` ADDS the given stock level to an existing product
  instead of replacing it, and leaves that product's supplier unchanged.
- `approve_photo` answers an unknown id with an error payload rather than an
  HTTP error.

## Model

| member | source | states |
|---|---|---|
| Records.HashPassword | MerchendiseInventoryManagement-main/Backend/main.py:105-109 | the digest verifies the password it was made from, and a password verifies exactly when its first 72 UTF-8 bytes equal those of that password |
| Records.ShortPasswordsDistinct | MerchendiseInventoryManagement-main/Backend/main.py:105-109 | for passwords of at most 72 UTF-8 bytes, a digest verifies its own password and no other |
| Records.LongPasswordsCollide | MerchendiseInventoryManagement-main/Backend/main.py:105-109 | two different passwords that share their first 72 bytes (72 letters then "x", and the same letters then "y") each verify against the other's digest |
| Text.Utf8Injective | MerchendiseInventoryManagement-main/Backend/main.py:105-109 | the UTF-8 encoding of passwords is injective: two strings with the same bytes are the same string |
| Query.First | MerchendiseInventoryManagement-main/Backend/main.py:194 | `filter().first()`: the index of the first matching row; None exactly when no row matches |
| Query.Where | MerchendiseInventoryManagement-main/Backend/main.py:355 | `filter().all()`: only matching rows of the table, and every matching row |
| Query.WhereAppend | MerchendiseInventoryManagement-main/Backend/main.py:355 | filtering a table grown by appending rows gives the old result followed by the result on the new rows |
| Query.Distinct | MerchendiseInventoryManagement-main/Backend/main.py:409 | `distinct()`: every value of the column appears, only values of the column appear, and none appears twice |
| Accounts.Register | MerchendiseInventoryManagement-main/Backend/main.py:192-207 | a known e-mail gives 400 and leaves the table unchanged; otherwise exactly one user is appended, with the next id, that e-mail and username, no reset token and a digest of the password; e-mails stay unique |
| Accounts.Login | MerchendiseInventoryManagement-main/Backend/main.py:209-227 | an unknown e-mail or a wrong password gives 401 and logs nothing; a success returns a bearer token for that e-mail and appends exactly one activity row for that user; with unique e-mails, success holds exactly when the password verifies |
| Accounts.CurrentUser | MerchendiseInventoryManagement-main/Backend/main.py:120-137 | a token resolves to the user whose e-mail is its subject; otherwise 401 "Could not validate credentials" |
| Accounts.LoginHistory | MerchendiseInventoryManagement-main/Backend/main.py:353-356 | 401 for an unresolvable token; otherwise only rows whose user id is the caller's, and all of them |
| Accounts.RequestReset | MerchendiseInventoryManagement-main/Backend/main.py:229-240 | an unknown e-mail gives 404 and no change; otherwise the first user with that e-mail gets the token, and no other row changes |
| Accounts.ChangePassword | MerchendiseInventoryManagement-main/Backend/main.py:242-251 | a token held by nobody gives 400 and no change; otherwise the first holder gets a digest of the new password, loses the token, and no other row changes |
| Accounts.ResetTokenSingleUse | MerchendiseInventoryManagement-main/Backend/main.py:242-251 | when at most one user holds the token, after a successful change presenting the same token again is refused and changes nothing |
| Accounts.RegisterKeepsTokensUnique | MerchendiseInventoryManagement-main/Backend/main.py:192-207 | a new user holds no reset token, so no two users share a token afterwards |
| Accounts.RequestResetKeepsTokensUnique | MerchendiseInventoryManagement-main/Backend/main.py:229-240 | handing out a token nobody holds keeps every reset token held by at most one user |
| Accounts.ChangePasswordKeepsTokensUnique | MerchendiseInventoryManagement-main/Backend/main.py:242-251 | a change only clears a token, so tokens stay unique; with unique tokens a successful change leaves nobody holding the spent token |
| Accounts.ChangeAfterRequest | MerchendiseInventoryManagement-main/Backend/main.py:229-251 | a password change with the token just requested for a registered e-mail changes the row of the user who asked; that row then verifies the new password, every e-mail is kept, and nobody holds the token any more |
| Accounts.ResetFlow | MerchendiseInventoryManagement-main/Backend/main.py:229-251 | requesting a fresh token and then changing the password succeeds; the new password then logs in, no password whose first 72 UTF-8 bytes differ from it does, and the token is spent |
| Accounts.LoginIsRecorded | MerchendiseInventoryManagement-main/Backend/main.py:218-221 | the token a login returns resolves to the user who logged in, and that user's history grows by exactly the new row |
| Text.TrimStart | MerchendiseInventoryManagement-main/Backend/main.py:267 | the result is the suffix left after removing all leading whitespace |
| Text.TrimEnd | MerchendiseInventoryManagement-main/Backend/main.py:267 | the result is the prefix left after removing all trailing whitespace |
| Text.StripCutsBlankEnds | MerchendiseInventoryManagement-main/Backend/main.py:267 | `strip()` returns a piece of the text that neither starts nor ends with whitespace, with only whitespace before and after it |
| Text.StripEmptyIffBlank | MerchendiseInventoryManagement-main/Backend/main.py:267 | `strip()` yields the empty string exactly when the text is whitespace only |
| Reviews.CheckReview | MerchendiseInventoryManagement-main/Backend/main.py:260-279 | a rating outside 1..5 fails first; then whitespace-only text; then a missing product id (404); no error otherwise |
| Reviews.CreateReview | MerchendiseInventoryManagement-main/Backend/main.py:253-293 | 401 for an unresolvable token; a failing check gives its error and no change; otherwise exactly one review is appended, with the caller's id and the next review id |
| Reviews.CreateKeepsReviewsValid | MerchendiseInventoryManagement-main/Backend/main.py:253-293 | whatever the request, the reviews table stays numbered from 1 and every review in it stays acceptable |
| Reviews.CreatedReviewIsAcceptable | MerchendiseInventoryManagement-main/Backend/main.py:282-293 | the review a successful call stores has a rating in 1..5, non-blank text, and a product and author that exist |
| Catalog.GetProduct | MerchendiseInventoryManagement-main/Backend/main.py:305-310 | the product with that name, or 404 exactly when no product has it |
| Catalog.SameCatalogKeepsKeys | MerchendiseInventoryManagement-main/Backend/main.py:348 | changing only stock levels keeps product names unique and ids numbered |
| Catalog.AddOrUpdate | MerchendiseInventoryManagement-main/Backend/main.py:312-333 | for a known name, only the first product with that name changes, and its stock rises by exactly the given amount; for a new name, one product is appended with that stock, that supplier and the default threshold; names stay unique |
| Catalog.UpsertThenGet | MerchendiseInventoryManagement-main/Backend/main.py:317-320 | after an upsert, the product reads back with its old stock plus the amount, or with just the amount if it was new |
| Catalog.PurchaseStep | MerchendiseInventoryManagement-main/Backend/main.py:337-349 | an unknown name gives 404; too little stock gives 400 and no change; otherwise only that product's stock drops by the quantity, and it stays non-negative |
| Catalog.Purchase | MerchendiseInventoryManagement-main/Backend/main.py:335-351 | only stock levels change; products that no item names are unchanged; success replies "Purchase successful" |
| Catalog.PurchaseTotals | MerchendiseInventoryManagement-main/Backend/main.py:335-351 | on success, every product's stock drops by exactly the sum of the quantities asked of it |
| Catalog.PurchaseLeavesNamedStockNonNegative | MerchendiseInventoryManagement-main/Backend/main.py:345-348 | on success, every product the request names has non-negative stock |
| Catalog.PurchaseFailureKeepsPrefix | MerchendiseInventoryManagement-main/Backend/main.py:336-351 | a request failing at item k leaves the table as the items before k alone would, and item k fails on that table with the reported error |
| Photos.UploadPhoto | MerchendiseInventoryManagement-main/Backend/main.py:358-383 | 401 for an unresolvable token; otherwise one unapproved photo is appended, with the static URL of the file, the caller's id and the category |
| Photos.ApprovedPhotos | MerchendiseInventoryManagement-main/Backend/main.py:385-390 | exactly the approved photos, restricted to the category when a non-empty one is given |
| Photos.ApprovePhoto | MerchendiseInventoryManagement-main/Backend/main.py:397-405 | an unknown id gives the "Photo not found" payload and no change; otherwise only the first photo with that id becomes approved |
| Photos.Categories | MerchendiseInventoryManagement-main/Backend/main.py:407-410 | every existing category, nothing else, and each once |
| Photos.UploadedPhotoNotListed | MerchendiseInventoryManagement-main/Backend/main.py:376-390 | an upload leaves every listing unchanged until the photo is approved |
| Photos.ApprovedPhotoListed | MerchendiseInventoryManagement-main/Backend/main.py:397-405 | once approved, a photo is listed both unfiltered and under its own category |
| Photos.ApproveIdempotent | MerchendiseInventoryManagement-main/Backend/main.py:397-405 | approving a photo twice leaves the table as approving it once |
| Photos.ApproveKeepsCategories | MerchendiseInventoryManagement-main/Backend/main.py:397-410 | approving a photo never changes the categories offered |
| Monitor.IsLow | MerchendiseInventoryManagement-main/Backend/main.py:145 | under SQL's NULL semantics for `<`, a product is selected exactly when it has a threshold and its stock is below it; a NULL threshold is never selected |
| Monitor.LowStockItems | MerchendiseInventoryManagement-main/Backend/main.py:145 | every product whose stock is below its threshold is selected, and every selected row has stock below its threshold |
| Monitor.LowStockItemSource | MerchendiseInventoryManagement-main/Backend/main.py:145 | every selected row is the name, stock and threshold of some product below its threshold |
| Monitor.LowStockItemsAppend | MerchendiseInventoryManagement-main/Backend/main.py:145-147 | the selection keeps table order |
| Text.JoinedAppend | MerchendiseInventoryManagement-main/Backend/main.py:165-166 | the text accumulated for two item lists, one after the other, is the text of the first list followed by that of the second |
| Text.JoinedHas | MerchendiseInventoryManagement-main/Backend/main.py:165-166 | in the accumulated text, item k's text follows the texts of items 0..k-1 |
| Monitor.LineShowsItem | MerchendiseInventoryManagement-main/Backend/main.py:166 | a line is "- ", the name, ": ", the canonical rendering of the stock, " (Threshold: ", that of the threshold, then ")" and a newline; both renderings read back as the numbers |
| Monitor.BodyHasLineOf | MerchendiseInventoryManagement-main/Backend/main.py:163-166 | the body starts with the fixed header, and item k's line follows the header and the lines of items 0..k-1 |
| Monitor.ComposeBody | MerchendiseInventoryManagement-main/Backend/main.py:163-166 | the accumulating loop builds exactly the header followed by one line per item, in order |
| Monitor.LowStockAlert | MerchendiseInventoryManagement-main/Backend/main.py:139-157 | no e-mail exactly when no product is below its threshold; otherwise the "Low Stock Alert" subject and a body that starts with the header |
| Monitor.AlertReportsLowProduct | MerchendiseInventoryManagement-main/Backend/main.py:145-166 | for every product below its threshold, an e-mail is produced and its body contains that product's line |
| Text.NaturalDigitsValue | MerchendiseInventoryManagement-main/Backend/main.py:166 | a natural number's decimal rendering is a non-empty digit string whose value is the number |
| Text.ParseDigits | MerchendiseInventoryManagement-main/Backend/main.py:166 | a non-empty digit string reads back as its value |
| Text.ParseNegated | MerchendiseInventoryManagement-main/Backend/main.py:166 | a minus sign followed by digits reads back as the negated value |
| Text.FormatIntCanonical | MerchendiseInventoryManagement-main/Backend/main.py:166 | the rendering has a minus sign exactly for negative numbers, then decimal digits with no leading zero unless the number is zero |
| Text.FormatIntRoundTrip | MerchendiseInventoryManagement-main/Backend/main.py:166 | reading back the rendering of any integer gives the same integer |
| Service.Store.constructor | MerchendiseInventoryManagement-main/Backend/main.py:38 | the tables start empty, and the invariant holds |
| Service.Store.Register | MerchendiseInventoryManagement-main/Backend/main.py:192-207 | the reply and the new users table are those of `Accounts.Register`, and the invariant is kept |
| Service.Store.Login | MerchendiseInventoryManagement-main/Backend/main.py:209-227 | the reply and the new activity table are those of `Accounts.Login`, and the invariant is kept |
| Service.Store.RequestPasswordReset | MerchendiseInventoryManagement-main/Backend/main.py:229-240 | for a fresh token (one no user holds, as a random 32-byte token is), the reply and the new users table are those of `Accounts.RequestReset`, and the invariant, including unique reset tokens, is kept |
| Service.Store.ChangePassword | MerchendiseInventoryManagement-main/Backend/main.py:242-251 | the reply and the new users table are those of `Accounts.ChangePassword`, the invariant is kept, and after a success nobody holds the token, so it cannot be used again |
| Service.Store.GetLoginActivity | MerchendiseInventoryManagement-main/Backend/main.py:353-356 | the loop over the activity table collects exactly `Accounts.LoginHistory` |
| Service.Store.CreateReview | MerchendiseInventoryManagement-main/Backend/main.py:253-293 | the reply and the new reviews table are those of `Reviews.CreateReview`; every stored review remains acceptable |
| Service.Store.AddOrUpdateProduct | MerchendiseInventoryManagement-main/Backend/main.py:312-333 | the reply and the new products table are those of `Catalog.AddOrUpdate` with the store's default threshold, and the invariant is kept |
| Service.Store.Purchase | MerchendiseInventoryManagement-main/Backend/main.py:335-351 | the loop, which returns at the first failing item, leaves the reply and the products table of `Catalog.Purchase`, and the invariant is kept |
| Service.Store.UploadPhoto | MerchendiseInventoryManagement-main/Backend/main.py:358-383 | the reply and the new photos table are those of `Photos.UploadPhoto`, and the invariant is kept |
| Service.Store.ApprovePhoto | MerchendiseInventoryManagement-main/Backend/main.py:397-405 | the reply and the new photos table are those of `Photos.ApprovePhoto`, and the invariant is kept |
| Service.Store.CheckLowStock | MerchendiseInventoryManagement-main/Backend/main.py:139-166 | the e-mail one monitor cycle would send is `Monitor.LowStockAlert` of the current products |

## Left out

- JWT signing, decoding and expiry (`create_access_token`, the decode in `get_current_user`): an access token is modelled as the e-mail it names, so a forged or expired token is not distinguished from a valid one.
- bcrypt internals: a digest is an idealised value `Bcrypt(salt, key)`. The key is the first 72 bytes of the password's UTF-8 encoding, which is all bcrypt reads; the rest of a longer password is dropped, as the hashing library does by default. The salt is a parameter. A bcrypt backend that refuses passwords over 72 bytes instead of cutting them, and the library's refusal of passwords holding a NUL byte, are not modelled.
- Randomness: the reset token from `secrets.token_urlsafe(32)` and the bcrypt salt are passed in by the caller. The token is assumed fresh: `Service.Store.RequestPasswordReset` requires that no user holds it yet, which a random 32-byte token makes true in practice but not with certainty.
- Concurrency between requests: each request is modelled as one atomic step on the tables. FastAPI runs these handlers on a thread pool, and each reads a row and later writes it back without a lock, so interleaved requests can behave in ways the model does not capture. These include lost stock updates in `purchase_items` and `add_or_update_product`, two `register_user` calls with the same new e-mail both passing the check, and one reset token used by two `change_password` calls at once.
- The low-stock loop itself (the `asyncio` task, the three-hour sleep, the SQLite connection, the `print` logging) and the SMTP/MIME sending: these are I/O and concurrency. One cycle is modelled as the e-mail it would send.
- Writing the uploaded file to disk in `upload_photo`: file I/O. Only the metadata row is modelled.
- `get_suppliers`, `get_products` and `get_all_photos`: each is a plain projection of one table, with nothing to prove. The supplier table is not part of this model.
- Database seeding (`initialize_db`, `add_suppliers`, `add_products`), CORS, static mounting and the auth router: framework code. The modules behind them are not part of this model.
- pydantic's `EmailStr` validation and normalisation in `register_user` and `request_password_reset`: it rejects malformed addresses, strips whitespace, unwraps `Name <addr>` and lower-cases the domain. The `email` parameter of `Accounts.Register` and `Accounts.RequestReset` stands for the address after that normalisation. `login` compares the raw form field, so a login spelled differently from the stored address (`a@Example.com` for `a@example.com`) is refused, in the model as in the code.
- Timestamps of login rows (`timestamp`, `created_at`): clock values, not modelled.
- `models.py` is not part of this model. A new product's reorder threshold is therefore the store constant `defaultReorderThreshold`. A missing threshold (SQL NULL) never satisfies `stock_level < reorder_threshold`, so such a product is never reported.
- Catalog.AddOrUpdate: integers are unbounded. SQLite stores a signed 64-bit INTEGER, and the driver fails when a value outside -2^63..2^63-1 is written, so a stock sum that leaves that range makes the source reply 500 with the stock unchanged, which is not modelled.
- Catalog.PurchaseStep: integers are unbounded. A negative quantity can raise the stock above 2^63-1. The source then fails at the commit with a 500, after committing the earlier items; this is not modelled.
- Reviews.CheckReview: integers are unbounded; a `product_id` outside the signed 64-bit range makes the product lookup fail with a 500 rather than the 404, which is not modelled.
- Photos.ApprovePhoto: integers are unbounded; a photo id outside the signed 64-bit range makes the lookup fail with a 500 rather than the "Photo not found" payload, which is not modelled.
- Catalog.Purchase: purchase items are typed (`productId: string`, `quantity: int`). The model does not cover a dict without `product_id` or `quantity`, which the code would look up as `None`.
- Photos.Categories: the order in which the database returns distinct values is not stated. The model keeps first occurrences in table order, but only membership and the absence of duplicates are claimed.
