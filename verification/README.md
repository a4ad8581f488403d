# movicel storefront and back office, modelled in Dafny

This project models the logic of a small Spanish-language e-commerce site for a phone shop. The site has three parts:

- an Express/PostgreSQL API with product, category, order and administrator-login controllers;
- two generations of the public storefront script (`frontend/main.js` and the older `fronted/main.js`);
- two generations of the admin panel script (`frontend/admin.js` and `backend/admin.js`).

The centrepiece is the checkout transaction, `createOrder` run inside `withTransaction`. It is a pure function over an abstract database:

1. validate the request;
2. read the requested product rows;
3. check every line against that snapshot;
4. decrement stock;
5. insert the order and its items;
6. stamp the order number.

Any failure rolls everything back. The model states what a successful checkout writes and that every failure writes nothing. It also shows that the stock check as written oversells when a product is named twice.

Around the checkout sit smaller pieces of the same system:

- the administrator's two-step sign-in with an e-mailed one-time code, and the per-IP failed-login counter;
- the product and category rules (validation, partial update, soft delete, listings);
- the CORS origin policy;
- the storefront's cart, `slug`, image-URL resolution, HTML sanitiser and price filter;
- the admin panel's HTML escaper, request wrapper and product form.

The project is organised as one module per file:

| module | file | models |
|---|---|---|
| `Wrappers` | wrappers.dfy | `Option`, `Result`, JavaScript truthiness of optional strings |
| `Text` | text.dfy | `trim`, `toLowerCase` on Latin-1 letters, `split`, `padStart`, `String(n)`, express-validator's `escape` |
| `Transaction` | transaction.dfy | `withTransaction` and `shouldUseSSL` of backend/server/db/pg.js |
| `Store` | store.dfy | the tables as values, validation-error entries, `ORDER BY id DESC` |
| `Checkout` | checkout.dfy | `validateCheckout`, `createOrder`, `listOrders` |
| `Auth` | auth.dfy | `generateOtpCode`, `newTransaction`, `login`, `loginStep1`, `loginStep2` |
| `Products` | products.dfy | `validateProduct`, `createProduct`, `updateProduct`, `deleteProduct`, `getProducts` |
| `Categories` | categories.dfy | `validateCategory(Update)`, `createCategoria`, `updateCategoria`, `deleteCategoria`, `getCategorias` |
| `Cors` | cors.dfy | `allowedOrigins`, `toRegex`, the origin callback, the error handler |
| `Cart` | cart.dfy | the cart operations of both storefront scripts |
| `Storefront` | storefront.dfy | `slug`, the effective `getSafeImageUrl`, the price filter; `slug` and `getSafeImageUrl` of fronted/main.js (lines 25-28 and 59-80) are the same code as in frontend/main.js, so the rows citing frontend/main.js cover both scripts |
| `Sanitizer` | sanitizer.dfy | `sanitizeHTMLToFragment` as a tree filter |
| `AdminClient` | admin.dfy | `escapeHtml`, `apiFetch`, the product form of both panels |

Conventions:

- Money in the backend is integer cents.
- Timestamps, the clock, random numbers and generated ids are parameters.
- Request bodies are taken as the controllers see them, after the `xss-clean` middleware (backend/server/index.js:135) has rewritten their strings. A body reaches a controller only when it is sent as JSON with `Content-Type: application/json` (backend/server/index.js:128). A string body that `fetch` sends without that header travels as `text/plain`, no parser reads it, and the controller sees `{}`.
- Text lengths are counted as validator.js's `isLength` counts them: one per code point, with the presentation selectors U+FE0E and U+FE0F not counted.
- A body field is absent, JSON `null` or a given string. express-validator's `optional()` skips only an absent field and reads `null` as the empty string.
- Library predicates (`isEmail`, `normalizeEmail`, `isURL`, bcrypt's verdict, `Number`, `decodeEntities`, `DOMParser`, `normalize('NFD')`) are function parameters. express-validator's `escape` is a parameter too, except where its exact character table matters.

## Model

| member | source | states |
|---|---|---|
| `Transaction.WithTransaction` | backend/server/db/pg.js:37-50 | BEGIN, then the callback, then exactly one of COMMIT or ROLLBACK, then exactly one release. It commits exactly when the callback succeeds. It then returns the callback's state and value unchanged. On failure it restores the snapshot and rethrows the callback's error. |
| `Transaction.AllOrNothing` | backend/server/db/pg.js:38-46 | After a transaction the state is either the untouched snapshot (and the callback failed) or exactly the state the callback built. |
| `Transaction.ShouldUseSsl` | backend/server/db/pg.js:7-18 | TLS is forced by `PGSSL=true` and off without a connection string. Otherwise it is on iff the parsed `sslmode` is `require` in any letter case. For a string that does not parse as a URL, it is on iff the string contains `sslmode=require` in any case. |
| `Transaction.LowerIsRequire` | backend/server/db/pg.js:13 | `sslMode.toLowerCase() === 'require'` holds exactly for seven characters equal to `require` up to case. |
| `Store.Check` | backend/server/controllers/productcontroller.js:33-36 | A validation check contributes an error entry iff it fails, and that entry carries its message. |
| `Store.TextErrors` | backend/server/controllers/productcontroller.js:33-40 | A required, trimmed text field of bounded length reports nothing iff it is non-empty and its `isLength` count is within bounds. An empty value is reported twice, as missing and as out of bounds. |
| `Text.IsLengthCount` | backend/server/controllers/productcontroller.js:36-40 | The length `isLength` compares is at most the number of characters, and equals it for text without presentation selectors. |
| `Text.IsLengthCountAppend` | backend/server/controllers/productcontroller.js:36-40 | The count of two pieces put together is the sum of their counts. |
| `Text.SelectorNotCounted` | backend/server/controllers/ordercontroller.js:6-8 | A presentation selector inserted anywhere leaves the count unchanged, so padding a name or a phone with selectors does not make it long enough. |
| `Store.KeysDescending` | backend/server/controllers/productcontroller.js:22 | `ORDER BY id DESC` over a table keyed by a serial: strictly descending, and every key up to the serial's last value occurs. |
| `Store.KeepIds` | backend/server/controllers/productcontroller.js:19-21 | A `WHERE` over an ordered scan keeps exactly the accepted ids. |
| `Store.KeepIdsDescending` | backend/server/controllers/productcontroller.js:19-22 | Filtering an id-descending scan keeps it id-descending. |
| `Checkout.ProductIdErrors` | backend/server/controllers/ordercontroller.js:10 | The `items.*.productId` rule reports nothing iff every product id is a positive integer. |
| `Checkout.QuantityErrors` | backend/server/controllers/ordercontroller.js:11 | The `items.*.quantity` rule reports nothing iff every quantity is a positive integer. |
| `Checkout.ValidationErrors` | backend/server/controllers/ordercontroller.js:5-12 | The request passes validation iff all of these hold: the trimmed name has at least 2 characters; an e-mail that is present (a string or `null`) is valid, `null` read as the empty string; a present phone has at least 6 characters, so `null` fails; items is non-empty; every id and quantity is positive. |
| `Checkout.QuickContactErrors` | backend/server/controllers/ordercontroller.js:6-8 | A parsed body with a long-enough name and with e-mail and phone both `null` is reported first for the e-mail ("Email inválido") and then for the phone ("Teléfono inválido"), whenever the empty string is not an e-mail. |
| `Checkout.CheckFrom` | backend/server/controllers/ordercontroller.js:37-47 | The check loop succeeds iff every line resolves and fits, and then yields the sum of snapshot price times quantity. Otherwise it throws the error of the first line that does not fit. |
| `Checkout.FirstUnfitShifts` | backend/server/controllers/ordercontroller.js:37-47 | A fitting line does not change which line is the first unfit one. |
| `Checkout.Decrement` | backend/server/controllers/ordercontroller.js:50-55 | The decrements lower each product's stock by everything requested for it. Products not named keep their stock, and no product appears or vanishes. |
| `Checkout.MakeItems` | backend/server/controllers/ordercontroller.js:66-73 | One item row per line, in order, at the snapshot unit price. The rows add up to the checked total. |
| `Checkout.PadValue` | backend/server/controllers/ordercontroller.js:76-78 | A zero-padded date field has exactly its width in digits and denotes the number it was made from. |
| `Checkout.OrderNumberRoundTrip` | backend/server/controllers/ordercontroller.js:76-78 | `ORD-YYYYMMDD-id` reads back to the date and the order id. |
| `Checkout.ParseParts` | backend/server/controllers/ordercontroller.js:76-78 | An order number assembled from digit fields of widths 4, 2 and 2 and an id reads back field by field. |
| `Checkout.DatePartsRoundTrip` | backend/server/controllers/ordercontroller.js:77 | Year, month and day of a valid date render as 4, 2 and 2 digits denoting themselves. |
| `Checkout.OrderNumberInjective` | backend/server/controllers/ordercontroller.js:76-78 | Two orders share a number only if they share date and id. |
| `Checkout.Checkout` | backend/server/controllers/ordercontroller.js:14-89 | A malformed request answers 400 without opening a transaction. A well-formed one runs exactly one transaction. The answer is 201 iff the request is well formed and every line fits the stock. Any other answer leaves the database untouched. |
| `Checkout.CreateOrder` | backend/server/controllers/ordercontroller.js:14-89 | As written, a request is committed exactly when it is well formed and every line names a product whose stock covers that line's own quantity. A request that is not committed changes nothing. |
| `Checkout.PerLineFitsEachLine` | backend/server/controllers/ordercontroller.js:37-45 | The per-line rule accepts a request exactly when each line's product exists and its stock covers that line's quantity, whatever the other lines ask for. |
| `Checkout.CheckoutBodySucceeds` | backend/server/controllers/ordercontroller.js:25-73 | The transaction body commits iff every line fits the live stock. Otherwise it throws the error of the first line that does not fit. |
| `Checkout.CheckoutFailureResponse` | backend/server/controllers/ordercontroller.js:37-47 | A rejected well-formed request is answered for its first unfit line. A missing product gives a generic 500, not a 404. Short stock gives 409 naming the product. |
| `Checkout.LineErrorAnswer` | backend/server/controllers/ordercontroller.js:40-45 | The error thrown for a line is answered 500 when its product is missing and 409 with the product's name when its stock is short. |
| `Checkout.FailureAnswersBodyError` | backend/server/controllers/ordercontroller.js:84-88 | A failing transaction body is answered from the error it threw. |
| `Checkout.LockedAgrees` | backend/server/controllers/ordercontroller.js:25-31 | Checking against the lock-read snapshot decides every line exactly as the live table would. |
| `Checkout.CheckoutCommits` | backend/server/controllers/ordercontroller.js:49-83 | A 201 means every line fitted, the committed state is the body's, and the answer carries the body's order id and number. |
| `Checkout.FittingLinesResolve` | backend/server/controllers/ordercontroller.js:37-40 | Every line of a fitting request names a product of the snapshot. |
| `Checkout.BodyDecrementsStock` | backend/server/controllers/ordercontroller.js:50-55 | A committed body lowers each product's stock by all that was requested for it and leaves categories alone. |
| `Checkout.BodyInsertsOrder` | backend/server/controllers/ordercontroller.js:58-78 | A committed body inserts one order under the next serial: PAID, with the trimmed buyer name, stamped now, and numbered. E-mail and phone are stored when given and non-empty, NULL otherwise. Older orders are unchanged. |
| `Checkout.BodyAppendsItems` | backend/server/controllers/ordercontroller.js:66-73 | A committed body appends one item per line after the existing ones, at the snapshot price. The order's total is their sum. |
| `Checkout.CheckoutSuccessStock` | backend/server/controllers/ordercontroller.js:50-55 | After a 201 each product's stock is lowered by everything requested for it. Unnamed products and the categories are untouched. |
| `Checkout.CheckoutSuccessOrder` | backend/server/controllers/ordercontroller.js:58-83 | A 201 reports the next serial and its number `ORD-date-id`. It records that order as PAID with the trimmed buyer name, the e-mail when given and non-empty, and the phone when given; it keeps every older order. A 201 never follows a `null` phone. |
| `Checkout.CheckoutSuccessItems` | backend/server/controllers/ordercontroller.js:66-73 | After a 201 there is exactly one new item per line, at the price read under lock. The existing items come first, and the new ones add up to the order's total. |
| `Checkout.CheckoutKeepsKeyed` | backend/server/controllers/ordercontroller.js:58-63 | Any checkout keeps every table keyed by its serial. |
| `Checkout.KeyedAfterInsert` | backend/server/controllers/ordercontroller.js:58-63 | One more order under the next serial, products and categories otherwise keyed as before, keeps the tables keyed. |
| `Checkout.CheckoutNumberReadsBack` | backend/server/controllers/ordercontroller.js:76-83 | The order number a 201 returns reads back to today's date and the returned order id. |
| `Checkout.QtyForAbsent` | backend/server/controllers/ordercontroller.js:50-55 | A product no line names has nothing requested. |
| `Checkout.QtyForDistinct` | backend/server/controllers/ordercontroller.js:50-55 | With distinct product ids, a line's quantity is everything requested for its product. |
| `Checkout.AggregatedCovers` | backend/server/controllers/ordercontroller.js:41 | Under the aggregated check, a fitting request asks no product for more than its stock. |
| `Checkout.AggregatedKeepsStockNonNegative` | backend/server/controllers/ordercontroller.js:37-55 | With the aggregated check, no checkout ever drives a product's stock below zero. |
| `Checkout.RulesAgreeOnDistinctLines` | backend/server/controllers/ordercontroller.js:41 | When no product is named twice, the per-line check and the aggregated check accept the same requests. |
| `Checkout.PerLineSafeOnDistinctLines` | backend/server/controllers/ordercontroller.js:37-55 | The check as written keeps stock non-negative whenever no product is named twice. |
| `Checkout.DoubledQuantity` | backend/server/controllers/ordercontroller.js:50-55 | A line given twice has twice its quantity requested. |
| `Checkout.PerLineOversells` | backend/server/controllers/ordercontroller.js:37-55 | As written, two copies of a line that each fit the stock, but together exceed it, are committed with 201 and leave the stock negative. |
| `Checkout.DoubledLineFitsPerLine` | backend/server/controllers/ordercontroller.js:41 | Each copy of the doubled line passes the per-line check. |
| `Checkout.AggregatedRejectsOversell` | backend/server/controllers/ordercontroller.js:41-45 | The aggregated check answers that request 409, naming the product, and changes nothing. |
| `Checkout.UnparsedBodyRejected` | backend/server/controllers/ordercontroller.js:5-18 | Whatever it holds, a body the server does not parse is answered 400 with exactly "Nombre requerido" and then "Debe enviar items". No transaction is opened and nothing is written. |
| `Checkout.QuickCheckoutRejected` | fronted/main.js:705-711 | The older storefront's checkout button posts through `fetchJSON` without a `Content-Type`, so its body travels as plain text. Whatever the cart and the stock, the answer is 400 for the name and the items, the contact fields are never reached, and the database and log are untouched. frontend/main.js:1278-1284 is the same call. |
| `Checkout.QuickJsonNullsRejected` | fronted/main.js:708 | Sending that body as JSON is not enough: with `null` e-mail and phone, and as long as the empty string is not an e-mail, it is answered 400 naming both contact fields, and nothing is written. |
| `Checkout.QuickCheckoutOmittingCommits` | fronted/main.js:705-711 | Sent as JSON with the header, as the newer checkout form does (frontend/main.js:1345), and with the contact fields left out instead of `null`, the body passes validation: for a cart of positive ids and quantities the answer is 201 iff every line fits, and the order records `Cliente Web` with no e-mail and no phone. |
| `Checkout.QuickOmittingOrder` | backend/server/controllers/ordercontroller.js:58-62 | A committed request without e-mail and phone stores the trimmed name and NULL for both. |
| `Checkout.LiveIds` | backend/server/controllers/ordercontroller.js:97 | `deleted_at IS NULL`: exactly the live orders, in scan order. |
| `Checkout.ListOrders` | backend/server/controllers/ordercontroller.js:91-106 | At most 200 rows, each a live order as stored, newest id first. |
| `Checkout.LiveOrderListed` | backend/server/controllers/ordercontroller.js:94-99 | Under the serial invariant every live order is among the scanned live ids. |
| `Checkout.Newest` | backend/server/controllers/ordercontroller.js:99 | `LIMIT 200`: a prefix of at most 200 ids, all of them when there are fewer. |
| `Checkout.ListOrdersComplete` | backend/server/controllers/ordercontroller.js:94-99 | No live order is skipped. It is listed, or the list is full and the order is older than every listed one. |
| `Checkout.OlderThanNewest` | backend/server/controllers/ordercontroller.js:98-99 | An id cut off by the limit is older than every id kept. |
| `Auth.GenerateOtpCode` | backend/server/controllers/authcontroller.js:27-31 | The code for a number below one million is exactly six decimal digits denoting that number. |
| `Auth.OtpCodeInjective` | backend/server/controllers/authcontroller.js:27-31 | Different numbers give different codes. |
| `Auth.NewTransaction` | backend/server/controllers/authcontroller.js:33-39 | It stores the e-mail, the code, a deadline five minutes ahead and zero attempts under the new id. It returns that id, code and deadline, and every other transaction stays as it was. |
| `Auth.LoginStep2` | backend/server/controllers/authcontroller.js:210-248 | The answers, in order: missing fields → 400; an unknown transaction → 400 with nothing changed; past the deadline → 400 and the transaction dropped (the deadline itself is still valid); out of tries → 429 and the transaction dropped; a wrong code → 401, one try spent, transaction kept; the right code → the transaction consumed and tokens for its e-mail. Tokens are only ever issued that way. |
| `Auth.Step2SpendsBudget` | backend/server/controllers/authcontroller.js:220-226 | No second-step request raises a transaction's remaining tries, and each code comparison spends one. |
| `Auth.ComparisonsWithinBudget` | backend/server/controllers/authcontroller.js:220-230 | Over any run of second-step requests, a transaction's code is compared at most as often as it has tries left. |
| `Auth.FreshTransactionBudget` | backend/server/controllers/authcontroller.js:25 | A freshly issued transaction allows at most five code comparisons. |
| `Auth.DigitsUntrimmed` | backend/server/controllers/authcontroller.js:225 | Trimming a code of digits leaves it unchanged. |
| `Auth.IssuedCodeSignsIn` | backend/server/controllers/authcontroller.js:33-39 | The code issued for a new transaction, sent back before its deadline, signs in as the e-mail it was issued for and consumes the transaction. |
| `Auth.CheckCredentials` | backend/server/controllers/authcontroller.js:108-136 | Accepted iff the administrator is configured, the trimmed, lower-cased e-mails agree and the password matches. A foreign e-mail or a wrong password adds one to this IP's counter. The alert fires exactly when that counter reaches the threshold. Success forgets the IP, and other IPs' counters are never touched. |
| `Auth.Login` | backend/server/controllers/authcontroller.js:88-156 | Input failing `validateLogin` (an e-mail, a password of at least 6 characters) answers 400 with the counters untouched. Otherwise the counters move as the credential check of the normalised e-mail and the trimmed, escaped password says. The answer is 200 iff the credentials are accepted and the secrets are set. Tokens are issued for the normalised e-mail, and only after bcrypt accepted the trimmed, escaped password. |
| `Auth.LoginStep1` | backend/server/controllers/authcontroller.js:159-207 | The same validation and credential check as `login`. A transaction for the normalised e-mail is opened exactly when the credentials are accepted, with zero attempts and the five-minute deadline, and every other transaction is kept. `OTP_SENT` with its id is answered iff the mail was also sent. |
| `Auth.UnreachableAdminLockedOut` | backend/server/controllers/authcontroller.js:88-123 | When no e-mail normalises to the configured administrator address (up to trimming and case), neither `login` nor `loginStep1` ever signs in or opens a transaction, and every valid attempt is a foreign-e-mail failure. |
| `Auth.CounterCountsFailures` | backend/server/controllers/authcontroller.js:119-132 | With no success from an IP, its counter grows by exactly its number of failed attempts, whatever other IPs do. |
| `Auth.SuccessResetsCounter` | backend/server/controllers/authcontroller.js:136 | A successful sign-in resets the IP's count to zero. |
| `Auth.SameElsewhereTrans` | backend/server/controllers/authcontroller.js:108-136 | Leaving other IPs' counters alone composes across steps. |
| `Products.BoundErrors` | backend/server/controllers/productcontroller.js:41-43 | A required number with a lower bound reports nothing iff it is present and at least the bound. |
| `Products.UrlErrors` | backend/server/controllers/productcontroller.js:44-47 | The image URL reports nothing iff it is non-empty and a URL. |
| `Products.NameErrors` | backend/server/controllers/productcontroller.js:33-36 | The name reports nothing iff its trimmed length is 3 to 100. |
| `Products.DescriptionPriceErrors` | backend/server/controllers/productcontroller.js:37-43 | Description and price report nothing iff the trimmed description has 10 to 500 characters and the price is at least one cent. |
| `Products.ReferenceErrors` | backend/server/controllers/productcontroller.js:44-53 | Image, category and stock report nothing iff the image is a URL, the category id is at least 1 and a given stock is a non-negative integer. |
| `Products.SpecsErrors` | backend/server/controllers/productcontroller.js:54-56 | `specifications` reports nothing iff it is not `null`; a `null` value is reported once, as not a string. |
| `Products.OtherErrors` | backend/server/controllers/productcontroller.js:37-56 | The chains after the name report nothing iff description, price, image, category and stock are all acceptable and the specifications are not `null`. |
| `Products.ProductErrors` | backend/server/controllers/productcontroller.js:32-57 | A product body is rejected iff some field breaks its rule: name 3–100, description 10–500, price ≥ 0.01, a URL image, category id ≥ 1, optional stock an integer ≥ 0, specifications absent or a string. |
| `Products.NullSpecsRejected` | backend/server/controllers/productcontroller.js:54-56 | A body with `specifications: null` is rejected, its last error saying the field must be a string. |
| `Products.SpecsOnlyNullMatters` | backend/server/controllers/productcontroller.js:54-56 | A body is valid iff it is valid with the specifications left out and they are not `null`. |
| `Products.SpecsColumn` | backend/server/controllers/productcontroller.js:81 | `specifications ?? null`: the column holds the string when one is given, NULL otherwise. |
| `Products.EmptyNameFirst` | backend/server/controllers/productcontroller.js:33-36 | An empty name is reported first, as missing and then as too short. |
| `Products.ProductErrorsExplained` | backend/server/controllers/productcontroller.js:32-57 | Every reported error carries its message. |
| `Products.CreateProduct` | backend/server/controllers/productcontroller.js:59-92 | An invalid body answers 400 with the errors. An unknown category answers 400 "Category not found" and inserts nothing. The answer is 201 iff the body is valid and the category exists, and then it reports the next serial. |
| `Products.CreatedRow` | backend/server/controllers/productcontroller.js:77-85 | A 201 adds exactly one row under the next serial, holding the trimmed fields, no file path and not deleted. Its stock is the given quantity, or 0 when none was sent, and its specifications are the given string or NULL. No other row changes. |
| `Products.CreateWrites` | backend/server/controllers/productcontroller.js:78-83 | A 201 stores exactly the new row under the next serial and nothing else. |
| `Products.UpdateProduct` | backend/server/controllers/productcontroller.js:94-154 | Invalid bodies and unknown categories answer 400 and write nothing. Otherwise the answer is 200 "Product updated successfully", also for an unknown product id. |
| `Products.UpdatedRow` | backend/server/controllers/productcontroller.js:117-145 | A 200 overwrites category, name, description, price, image and specifications (NULL when none was sent). It overwrites the stock only when a quantity was sent. File path and deletion mark stay, and no other row changes. An unknown id changes nothing. |
| `Products.UpdateWrites` | backend/server/controllers/productcontroller.js:118-145 | A 200 overwrote the product's row when it exists, and nothing else. |
| `Products.DeleteProduct` | backend/server/controllers/productcontroller.js:156-188 | An empty id → 400; a non-integer or non-positive id → 400; an unknown id → 404; all three change nothing. Otherwise the answer is 200 and only the deletion mark of that row is set. A mark already present is kept. |
| `Products.DeleteIdempotent` | backend/server/controllers/productcontroller.js:170-183 | Deleting twice gives the same state and answer as deleting once, whenever the second call happens. |
| `Products.ListedIds` | backend/server/controllers/productcontroller.js:19-22 | Exactly the listable products, in the order scanned, id-descending when the scan is. |
| `Products.GetProducts` | backend/server/controllers/productcontroller.js:4-29 | Only live products of live categories, with the image coalesced and the category's name, newest id first. |
| `Products.Views` | backend/server/controllers/productcontroller.js:8-17 | One row per listed id, in order, showing that product. |
| `Products.GetProductsComplete` | backend/server/controllers/productcontroller.js:19-22 | Under the serial invariant every listable product is listed. |
| `Products.CreateKeepsKeyed` | backend/server/controllers/productcontroller.js:78-83 | Creating a product keeps every table keyed by its serial. |
| `Products.KeyedAfterProductInsert` | backend/server/controllers/productcontroller.js:78-83 | One more product under the next serial keeps the tables keyed. |
| `Products.CreatedIsListedFirst` | backend/server/controllers/productcontroller.js:19-22 | A product just created in a live category is listed first. |
| `Products.DeletedIsUnlisted` | backend/server/controllers/productcontroller.js:170-176 | A product deleted with success is no longer listed. |
| `Categories.CategoryErrors` | backend/server/controllers/categorycontroller.js:23-37 | A new category is rejected iff one of these fails: the trimmed name has 3 to 100 characters; the image is a URL; a sent description has at most 2000 characters. |
| `Categories.CreateCategoria` | backend/server/controllers/categorycontroller.js:65-83 | An invalid body answers 400 and changes nothing. A valid one inserts under the next serial and answers 201 with that id. |
| `Categories.InsertCategory` | backend/server/controllers/categorycontroller.js:74-77 | The insert takes the next serial and adds exactly that key, leaving every other row as it was. |
| `Categories.InsertedCategory` | backend/server/controllers/categorycontroller.js:74-77 | The insert adds exactly one row holding the escaped, trimmed name and URL, and changes nothing else. |
| `Categories.ImageAcceptedSlashes` | backend/server/controllers/categorycontroller.js:50-57 | The update's image check accepts exactly the empty value and values containing `/` or `\`. The http(s) and drive-path tests add nothing to that. |
| `Categories.UpdateErrors` | backend/server/controllers/categorycontroller.js:41-62 | A partial update is rejected iff one of these fails: a sent name has 3 to 100 trimmed characters; a sent image passes the image check; a sent description has at most 2000 characters. |
| `Categories.UpdateParams` | backend/server/controllers/categorycontroller.js:101-103 | Absent fields become NULL parameters, and an empty description becomes NULL too. |
| `Categories.UpdateWith` | backend/server/controllers/categorycontroller.js:86-129 | An invalid body answers 400. A valid one answers the success message, for unknown ids too. Only the categories table can change. |
| `Categories.UpdatedCategory` | backend/server/controllers/categorycontroller.js:105-123 | The update rewrites only the addressed row, by the SET rules. An invalid body or an unknown id changes nothing. |
| `Categories.UpdateCategoria` | backend/server/controllers/categorycontroller.js:105-123 | As written, a sent image goes to `image_url` exactly when its escaped form starts with `http://` or `https://`; otherwise it becomes the file path and `image_url` is cleared. No row is added or removed. |
| `Categories.UpdateCategoriaRouted` | backend/server/controllers/categorycontroller.js:109-118 | Corrected, a sent image goes to `image_url` exactly when the value as sent is an http(s) URL; otherwise it becomes the file path and `image_url` is cleared. No row is added or removed. |
| `Categories.AbsentFieldsKept` | backend/server/controllers/categorycontroller.js:101-119 | Fields not sent keep their columns, and an empty description does not clear the stored one. |
| `Categories.RoutedImage` | backend/server/controllers/categorycontroller.js:109-118 | Routing on the value as sent puts an http(s) image into `image_url` with the file path kept. Anything else becomes the file path with `image_url` cleared. |
| `Categories.DeleteCategoria` | backend/server/controllers/categorycontroller.js:132-146 | An empty id answers 400 with nothing changed. Otherwise the answer is the success message, and exactly that category row is gone; every other row stays as it was. |
| `Categories.DeleteCategoriaIdempotent` | backend/server/controllers/categorycontroller.js:138-139 | Deleting a category twice is deleting it once. |
| `Categories.EscapeAppend` | backend/server/controllers/categorycontroller.js:58 | `escape()` works character by character, so it distributes over concatenation. |
| `Text.ValidatorEscape` | backend/server/controllers/categorycontroller.js:28 | `escape()` never shortens a value, and its result holds none of `<`, `>`, `"`, `'`, `/`, `\` and the backtick. |
| `Categories.EscapedUrlNotHttp` | backend/server/controllers/categorycontroller.js:58 | Escaping turns the slashes of an http(s) URL into `&#x2F;`, so the escaped value no longer starts with `http://` or `https://`. |
| `Categories.UpdateNeverRoutesUrls` | backend/server/controllers/categorycontroller.js:109-118 | As written, an http(s) image sent to the update is escaped before the SQL `CASE` sees it. It is stored as the file path and `image_url` is cleared. |
| `Categories.UpdateHttpsImageExample` | backend/server/controllers/categorycontroller.js:109-118 | Concretely, `https://a/x` sent to category 1 ends up as an escaped file path. |
| `Categories.HttpsAccepted` | backend/server/controllers/categorycontroller.js:54 | A lower-case `https://` value passes the scheme test and the image check. |
| `Categories.Insert` | backend/server/controllers/categorycontroller.js:13 | Inserting into a name-sorted list keeps it sorted and adds exactly that row. |
| `Categories.SortByName` | backend/server/controllers/categorycontroller.js:13 | `ORDER BY name`: a sorted permutation of the rows. |
| `Categories.GetCategorias` | backend/server/controllers/categorycontroller.js:5-20 | Name-sorted rows of existing categories, soft-deleted ones included. Each row has its image coalesced from `image_url` then `image_file_path`. |
| `Categories.GetCategoriasComplete` | backend/server/controllers/categorycontroller.js:8-13 | Under the serial invariant every category is listed exactly once. |
| `Categories.StrLeTotal` | backend/server/controllers/categorycontroller.js:13 | Any two names are ordered one way or the other. |
| `Cors.ToRegex` | backend/server/index.js:87-96 | No pattern for an entry without `*`; for one with `*`, the any-runs sit exactly where the stars were. |
| `Cors.LiteralTokensMatchEqual` | backend/server/index.js:94 | A pattern without wildcards matches exactly the strings equal to it up to letter case, anchored at both ends. |
| `Cors.Test` | backend/server/index.js:115 | A pattern that is a lone `*` matches exactly the origins without a line terminator. |
| `Cors.StarAbsorbsPrefix` | backend/server/index.js:92-94 | A leading `.*` absorbs any run of characters other than line terminators. |
| `Cors.WildcardExample` | backend/server/index.js:90-94 | `*.a` matches `x.A` but not `xba`: the dot is literal and case is ignored. |
| `Cors.TrimmedEntries` | backend/server/index.js:77 | The kept entries are non-empty and trimmed. |
| `Cors.TrimmedEntryMember` | backend/server/index.js:77 | A string is an entry iff it is non-empty and the trim of some part. |
| `Cors.AllowedOrigins` | backend/server/index.js:76-85 | Without the variable, the five default origins. With it, exactly the non-empty trimmed comma-separated parts. |
| `Cors.ConfiguredEntries` | backend/server/index.js:77 | Every configured entry is non-empty, trimmed and free of commas. |
| `Cors.Configure` | backend/server/index.js:97-104 | Allow-all mode iff `CORS_ALLOW_ALL=true` or the list is `*`. The exact set is the entries without `*`. |
| `Cors.Decide` | backend/server/index.js:107-122 | A request without an origin is allowed, and so is any request in allow-all mode. A rejection carries "No permitido por CORS". |
| `Cors.PatternsMatchWildcards` | backend/server/index.js:99-102 | The compiled patterns match exactly what the wildcard entries match. |
| `Cors.OriginDecision` | backend/server/index.js:104-121 | A non-empty origin is allowed iff allow-all mode is on or some entry admits it. An entry without `*` admits an equal origin; an entry with `*` admits one that matches its anchored, case-insensitive pattern. |
| `Cors.ListedDecision` | backend/server/index.js:112-117 | The callback's decision over the built set and patterns is the per-entry admission. |
| `Cors.HandleError` | backend/server/index.js:192-205 | 403 exactly for the CORS rejection; every other error is a generic 500. |
| `Cors.RejectedOriginIsForbidden` | backend/server/index.js:121 | Every rejected origin is answered 403. A rejection only happens when the origin is present, allow-all mode is off and the origin is not in the exact set. |
| `Cart.FindIndex` | frontend/main.js:427 | The first item whose id matches, or -1 when none does. |
| `Cart.TotalsAround` | frontend/main.js:447-453 | Total and badge count split around any item. |
| `Cart.AddToCart` | frontend/main.js:405-412 | A product already in the cart (by `===`) gains one unit in place and nothing else changes. Otherwise it is appended with quantity 1. |
| `Cart.AddToCartTotals` | frontend/main.js:405-412 | Adding raises the badge count by one and the total by the unit price of the item it lands on. |
| `Cart.FindIndexSeesOnlyIds` | frontend/main.js:427 | Lookup depends on the items' ids alone. |
| `Cart.RemoveFromCart` | frontend/main.js:425-432 | Only the first matching item is spliced out and the rest keep their order. With no match the cart is unchanged. |
| `Cart.RemoveFromCartTotals` | frontend/main.js:447-453 | Removing takes the item's line total and quantity off the totals. |
| `Cart.RemoveFromCartItems` | frontend/main.js:425-432 | Removal takes out exactly one item, the matched one. |
| `Cart.ChangeCartQuantity` | frontend/main.js:434-445 | No match leaves the cart alone. A quantity that drops to zero or below removes the item. Otherwise only that item's quantity moves by the change. |
| `Cart.ChangeKeepsItemTotals` | frontend/main.js:434-453 | A change that keeps the item moves the count by the change and the total by the price times the change. |
| `Cart.ChangeDropsItemTotals` | frontend/main.js:434-453 | A change that drops the item takes its whole quantity and line total off. |
| `Cart.StrictDatasetIdsNeverMatch` | fronted/main.js:202-220 | In the older script, `===` between a button's string id and a numeric item id never matches. Its remove and quantity buttons leave the cart unchanged. |
| `Cart.StrictRemoveExample` | fronted/main.js:273-276 | Concretely, removing product 7 through its button leaves the cart as it was. |
| `Cart.NumericIdStringsDistinct` | frontend/main.js:426-427 | Distinct numeric ids have distinct string forms. |
| `Cart.DatasetIdFindsItem` | frontend/main.js:426-427 | Matching by `String(id)`, a button's id finds exactly the item it was rendered for. |
| `Cart.DatasetIdRemovesItem` | frontend/main.js:425-432 | The newer script's remove button removes exactly its own item. |
| `Cart.DatasetIdChangesItem` | frontend/main.js:434-445 | The newer script's quantity buttons change exactly their own item. |
| `Storefront.StripMarks` | frontend/main.js:28 | No combining diacritical mark survives. |
| `Storefront.DashRuns` | frontend/main.js:29 | The result holds only `a-z`, `0-9` and dashes, never two dashes in a row, and exactly the letters and digits of the input, in order. |
| `Storefront.DashRunsAppend` | frontend/main.js:29 | The replacement works left to right: a concatenation is replaced piece by piece, each piece starting inside or outside a run as the previous piece left it. |
| `Storefront.DashRunsOfRun` | frontend/main.js:29 | A whole run of characters other than `a-z0-9` becomes exactly one dash, or nothing when a run is already under way. |
| `Storefront.DashRunsOfWord` | frontend/main.js:29 | Letters and digits go through unchanged. |
| `Storefront.RunBecomesOneDash` | frontend/main.js:29 | Two words of letters and digits around a non-empty run of other characters become the two words joined by exactly one dash. |
| `Storefront.TrimDashes` | frontend/main.js:29 | Exactly one dash is dropped from the front when the string starts with one, then exactly one from the end of what is left when it ends with one; nothing else changes. A dash-separated string ends up with no dash at either end. |
| `Storefront.Slug` | frontend/main.js:26-29 | The slug is non-empty, uses only `a-z`, `0-9` and single dashes, and has no dash at either end. |
| `Storefront.AccentedCapitalSlug` | frontend/main.js:26-29 | `Ángel` slugs to `angel`: lower-cased to `ángel`, decomposed, its accent dropped. |
| `Storefront.SlugKeepsLettersAndDigits` | frontend/main.js:26-29 | The slug keeps every letter and digit of the folded name, in order. It is `general` exactly when there are none. |
| `Storefront.SafeImageUrl` | frontend/main.js:266-287 | An empty reference yields the fallback. Every result is one of: the fallback; an http(s) URL without whitespace; an origin path; another URL without whitespace. |
| `Storefront.Resolve` | frontend/main.js:273-286 | Every result is the fallback, an http(s) URL without whitespace, a path under the origin, or a URL with `://` and no whitespace. |
| `Storefront.ResolveUrlOrRoot` | frontend/main.js:274-280 | An http(s) URL is kept exactly when it holds no whitespace, otherwise the fallback is used. A root-relative path is appended to the origin, without its trailing slash, as it is. |
| `Storefront.ResolveRelative` | frontend/main.js:281-284 | A reference that is neither http(s) nor root-relative and holds no `://` is served from the origin: the origin, one slash, then the reference with its leading `./` and the slashes after it removed. |
| `Storefront.ResolveOtherUrl` | frontend/main.js:281-286 | Any other reference with `://`, after dropping a leading `./`, is kept exactly when it holds no whitespace, otherwise the fallback is used. |
| `Storefront.RelativePathUsesOrigin` | frontend/main.js:266-284 | End to end, a trimmed relative reference such as `img/a.png` becomes the origin, one slash, and the reference. |
| `Storefront.HttpUrlKept` | frontend/main.js:270-276 | A well-formed http(s) URL without whitespace comes back unchanged. |
| `Storefront.ProtocolRelativeIsHttps` | frontend/main.js:271-276 | `//host/path` becomes `https://host/path`. |
| `Storefront.OtherSchemeKept` | frontend/main.js:281-286 | A URL with another scheme and no whitespace is returned unchanged. |
| `Storefront.RootPathUsesOrigin` | frontend/main.js:278-280 | A root-relative path is served from the API origin without a doubled slash. |
| `Storefront.AsBound` | frontend/main.js:1114-1115 | A bound is present iff the field holds a finite number. |
| `Storefront.ApplyBounds` | frontend/main.js:1111-1119 | The applied bounds are the entered ones, swapped if needed so that the minimum never exceeds the maximum. |
| `Storefront.ApplyBoundsOrderFree` | frontend/main.js:1111-1174 | Which field holds the smaller bound does not matter. With both bounds, a card is shown iff its price lies between them. |
| `Storefront.LoadRange` | frontend/main.js:1137-1152 | The minimum comes from the first truthy of `min`, `precioMin`, `minimo` (the last when none is) and is present exactly when its `Number` is finite; likewise the maximum from `max`, `precioMax`, `maximo`. There is no range iff neither is present. |
| `Storefront.InvertedQueryHidesAll` | frontend/main.js:1130-1152 | `?min=500&max=100` loads the range 500 to 100 as given, and no card is shown. |
| `Storefront.LoadedInvertedRangeHidesAll` | frontend/main.js:1130-1132 | A range loaded from the address bar with the minimum above the maximum hides every card. |
| `Storefront.LoadRangeOrdered` | frontend/main.js:1116 | The loaded range ordered like the apply handler's: the minimum never exceeds the maximum, and it exists exactly when a range was read. |
| `Storefront.LoadRangeOrderedShowsBetween` | frontend/main.js:1163-1174 | Ordered, a loaded range with both bounds shows exactly the cards priced between them. |
| `Sanitizer.AttrOr` | frontend/main.js:311-312 | A non-empty result is the value of an attribute of that name. |
| `Sanitizer.CleanNode` | frontend/main.js:304-337 | Cleaning one node yields only allow-listed elements (rebuilt without attributes), images and text. |
| `Sanitizer.CleanNodes` | frontend/main.js:304-343 | Cleaning a list of nodes yields only allow-listed elements, images and text. |
| `Sanitizer.CleanNodesSafe` | frontend/main.js:304-343 | The cleaned fragment holds only allow-listed elements (rebuilt without attributes), images and text. |
| `Sanitizer.CleanNodeSafe` | frontend/main.js:304-337 | One cleaned node holds only allow-listed elements, images and text. |
| `Sanitizer.CleanNodesKeepText` | frontend/main.js:304-343 | Cleaning loses no text and invents none: disallowed elements are unwrapped and their text kept in document order. |
| `Sanitizer.CleanNodeKeepsText` | frontend/main.js:304-337 | One node's cleaning shows exactly that node's text. |
| `Sanitizer.Sanitize` | frontend/main.js:294-354 | Nothing for an empty input. Otherwise a non-empty safe fragment, and a lone paragraph holding the decoded text when the cleaned body is empty. |
| `Sanitizer.SanitizeKeepsText` | frontend/main.js:339-352 | When the body yields something, the fragment shows exactly the body's text. |
| `Sanitizer.UnwrapExample` | frontend/main.js:326-332 | `<section><b onclick>x</b></section>` becomes `<b>x</b>`. |
| `Sanitizer.BoldKept` | frontend/main.js:318-324 | An allowed `b` loses its attributes and keeps its text. |
| `Sanitizer.SectionUnwrapped` | frontend/main.js:326-332 | A disallowed element is replaced by its cleaned child. |
| `Sanitizer.ImageExample` | frontend/main.js:309-316 | An image keeps its source and text alternative and drops every other attribute. |
| `AdminClient.Entity` | frontend/admin.js:114-119 | An entity holds no markup character and starts with `&` exactly for the five escaped characters. |
| `AdminClient.EntityEncode` | frontend/admin.js:114-119 | The per-character entity encoding holds no `<`, `>`, `"` or `'`. |
| `AdminClient.EscapeOneChar` | frontend/admin.js:114-119 | One character through the five replacements is its entity. |
| `AdminClient.EscapeHtmlAppend` | frontend/admin.js:114-119 | The escaper distributes over concatenation. |
| `AdminClient.EscapeHtmlIsEntityEncode` | frontend/admin.js:114-119 | Because `&` is replaced first, the chain of replacements is the per-character entity encoding: nothing is escaped twice. |
| `AdminClient.EscapeHtml` | frontend/admin.js:114-119 | The escaped text holds no `<`, `>`, `"` or `'`. |
| `AdminClient.NoMarkupAfterEscape` | frontend/admin.js:114-119 | Escaped text holds no `<`, `>`, `"` or `'`. |
| `AdminClient.EscapeRoundTrip` | backend/admin.js:75-80 | Unescaping the escaped text gives the text back. |
| `AdminClient.EncodeRoundTrip` | frontend/admin.js:114-119 | The entity encoding reads back to the text. |
| `AdminClient.ErrorMessage` | frontend/admin.js:78-82 | The message is never empty. `error` wins. Otherwise the first entry's `msg` of a non-empty `errors` wins, then `message`, then `Error <status>`. |
| `AdminClient.ShowsFirstValidationMessage` | frontend/admin.js:78-82 | A rejected product body is shown with its first failing check's message, "Name is required" for an empty name. |
| `AdminClient.CurrentCandidates` | frontend/admin.js:2-9 | Two to four candidates: the configured base first when set, the two local API addresses last. |
| `AdminClient.LegacyCandidates` | backend/admin.js:4 | The older panel has exactly one candidate. |
| `AdminClient.Send` | frontend/admin.js:61-70 | One fetch, and on a network failure at most one more at the next candidate, which must exist. |
| `AdminClient.SettleBounds` | frontend/admin.js:76-95 | Settling adds no fetch. It adds one refresh only when a refresh was tried, and keeps the base. |
| `AdminClient.ApiFetch` | frontend/admin.js:56-96 | A request answers for its final reply: a network failure is rethrown, a 2xx returns the body, and any other status throws the server's message. |
| `AdminClient.ApiFetchBounds` | frontend/admin.js:56-96 | A request makes at most one refresh (none on the retry itself) and at most four fetches. It moves at most one candidate per attempt and never past the list. |
| `AdminClient.SettleOutcome` | frontend/admin.js:74-95 | A request that is not retried returns the body on a 2xx and otherwise throws the server's message. The current panel clears the tokens and goes to the login page exactly on a 401/403. A refresh is recorded exactly when one was tried. |
| `AdminClient.ApiFetchAnswersFinalReply` | frontend/admin.js:56-96 | Whatever the candidates and the network do, a request ends on its final reply: the first one, or the retry's when a 401/403 was refreshed. A network failure is rethrown, a 2xx returns its body, and any other status throws the server's message. On the current panel the session is cleared exactly when the final reply is a 401/403. A refresh is attempted exactly when the first reply is a 401/403 on a retryable call. |
| `AdminClient.SessionClearedOnlyOnFailure` | frontend/admin.js:83-92 | Only the current panel ever clears tokens or redirects, and only for a failing request. |
| `AdminClient.NoCandidateLeft` | frontend/admin.js:63-69 | With no candidate left, a network failure throws "No se pudo conectar con el servidor." after one fetch. |
| `AdminClient.LegacyPanelOffline` | backend/admin.js:40-48 | With its single candidate, the older panel turns every network failure into the offline message. |
| `AdminClient.ExpiredSessionExample` | frontend/admin.js:71-92 | On the current panel, an expired session refreshes once and retries once, then clears the tokens and goes to the login page. |
| `AdminClient.SubmitProduct` | frontend/admin.js:504-530 | Submitted iff name, category, price and image are filled and the price is a finite number above zero. Otherwise one of the two alerts is shown. The body carries the trimmed name and image. |
| `AdminClient.MissingFieldsFirst` | backend/admin.js:340-343 | A missing required field is reported before the price is looked at. |
| `AdminClient.SubmittedDefaults` | frontend/admin.js:518-530 | Stock is the entered number when finite, 0 otherwise. Specifications are always sent: trimmed, or `null` when blank. The category id is sent as a number. |
| `AdminClient.BlankSpecsRejected` | frontend/admin.js:521-529 | A submitted form is accepted by the product rules iff it would be with non-blank specifications and its own are not blank. With blank specifications both create and update answer 400, reporting that specifications must be a string, and change nothing. |
| `AdminClient.OmittedBlankSpecsAccepted` | frontend/admin.js:529 | With blank specifications left out instead of sent as `null`, the field never decides validity, and the stored column is NULL for blank specifications and the trimmed text otherwise. |
| `Text.Trim` | frontend/main.js:268 | The longest infix neither starting nor ending with whitespace. It is empty exactly when the string is all whitespace. |
| `Text.TrimIdempotent` | backend/server/controllers/ordercontroller.js:6 | Trimming twice is trimming once. |
| `Text.Split` | backend/server/index.js:77 | The parts hold no separator and join back to the string. |
| `Text.NatToDecimal` | backend/server/controllers/authcontroller.js:30 | Canonical decimal digits that denote the number. |
| `Text.IntToStringInjective` | frontend/main.js:426 | Distinct integers render as distinct strings. |
| `Text.LeadingZerosValue` | backend/server/controllers/authcontroller.js:30 | Leading zeros do not change a decimal string's value. |

## Left out

- `orderPdf`: PDF rendering with pdfkit is output formatting, not logic.
- `sendOtpEmail`, the mailer and `sendSMSNotification`: mail and SMS delivery. The mailer's verdict is a parameter of `Auth.LoginStep1`, and an alert is a boolean in the result.
- `refreshToken` and `logout`: JWT verification and the token blacklist are library code. Token signing is represented by the e-mail a token is issued for.
- bcrypt, `crypto.randomInt` and `crypto.randomBytes`: bcrypt's verdict, the random number and the transaction id are parameters.
- The first `getSafeImageUrl` of each storefront script: the second declaration overrides it, so only the effective one is modelled.
- `decodeEntities`, `DOMParser`, `normalize('NFD')` and `Number`: browser and engine functions, taken as parameters.
- `Storefront.Slug`: `toLowerCase` is modelled on ASCII and Latin-1 capitals only; capitals beyond Latin-1 (Greek, Cyrillic, Latin Extended) keep their case and lose their letters in the slug.
- `Auth.CheckCredentials`: the e-mail normaliser (`normalizeEmail`) and the e-mail test are parameters; its gmail and sub-address rules are not modelled.
- xss-clean: its rewriting of request strings is not modelled. Every modelled body is what the controllers receive after it.
- `updated_at`: the timestamp set by the stock decrement (backend/server/controllers/ordercontroller.js:52) and the product and category updates is not a modelled column.
- `Cors.Compile`: regular-expression metacharacters other than `.`, `/` and `*` in an origin entry are read as literals. An entry holding `?`, `+`, brackets or parentheses would be a different regular expression in JavaScript.
- `AdminClient.ApiFetch`: the refresh request inside `refreshAccessToken` is one abstract boolean outcome. Its own base URL and JSON parsing are not modelled.
- `AdminClient.ErrorMessage`: error fields that are not strings (numbers, objects) are not modelled.
- `AdminClient.SubmitProduct`: the numeric conversion of `category_id` is the opaque `Number` parameter. How the server treats NaN is not modelled.
- Floating-point money: backend prices are integer cents, and admin-form prices are `real`.
- PostgreSQL's collation for `ORDER BY name` is modelled as code-point order.
- `Checkout.Checkout`: product ids are JSON numbers. A numeric string such as `"5"` passes `isInt({ gt: 0 })` but misses the `Map` keyed by the numeric `id` (backend/server/controllers/ordercontroller.js:34-40), so the source answers 500 where the model, reading it as the number 5, can answer 201.
- Concurrency: `FOR UPDATE` row locking and the connection pool. The model runs one transaction at a time over a snapshot.
- `updateProduct` and `updateCategoria` reject a missing `id`; the routes always supply one, so that branch is not modelled.
- `Categories.DeleteCategoria`: a foreign-key violation when products still reference the category (answered 500) is not modelled.
- Database errors other than those the controllers throw themselves (the generic 500 of each `catch`) are not modelled. In the checkout this includes a failing stock UPDATE or INSERT, which would roll back and answer 500.
- helmet, the rate limiters, the server's listen and keep-alive settings, and the routes files: Express wiring.
- Form-encoded bodies (`express.urlencoded`, backend/server/index.js:129): no modelled client sends one, so a body is either JSON or unparsed.
- Lone UTF-16 surrogates: a Dafny string holds code points, so the surrogate-pair rule of `isLength` is modelled only for well-formed text.
- DOM and UI code, localStorage/sessionStorage, `fetch` and `history` calls, frontend/login.js and frontend/config.js.

## Findings

| source | as written | input that shows it | evidently intended | confidence | as-written member | corrected member |
|---|---|---|---|---|---|---|
| backend/server/controllers/ordercontroller.js:37-55 | Each line is checked on its own against the snapshot, then every line's decrement is applied. | Two lines `{productId: 1, quantity: 2}` against a stock of 3 are accepted with 201 and leave a stock of -1. | The total requested per product must not exceed its stock. | not executed | `Checkout.PerLineOversells` | `Checkout.AggregatedKeepsStockNonNegative` |
| fronted/main.js:202-208 | `removeFromCart` and `changeCartQuantity` compare ids with `===`, but the buttons pass `btn.dataset.id`, a string. | A cart holding product 7 (numeric id from the API); pressing its remove button calls `removeFromCart("7")`, which removes nothing. | Compare by `String(id)`, as frontend/main.js does. | not executed | `Cart.StrictDatasetIdsNeverMatch` | `Cart.DatasetIdRemovesItem` |
| backend/server/controllers/categorycontroller.js:109-118 | The `image_url` chain runs `escape()`, turning `/` into `&#x2F;`. The `CASE` then tests the escaped value against `^(https?://)`, which never matches. | Updating a category with `image_url: "https://a/x"` clears `image_url` and stores the escaped text as `image_file_path`. | An http(s) URL lands in `image_url`, as the comment in the query says. | not executed | `Categories.UpdateNeverRoutesUrls` | `Categories.RoutedImage` |
| frontend/main.js:1130-1132 | A range read from the address bar is applied without the swap the apply handler performs. | `?min=500&max=100` hides every card of the section. | The load-time range is ordered like the entered one. | not executed | `Storefront.LoadedInvertedRangeHidesAll` | `Storefront.LoadRangeOrderedShowsBetween` |
| fronted/main.js:705-711 | The checkout button posts `JSON.stringify(...)` through `fetchJSON` with no `Content-Type` header, so the body travels as `text/plain`, which neither body parser reads. The body also sets `email: null` and `phone: null`, which `optional()` does not skip. frontend/main.js:1278-1284 is the same call. | Any cart checked out with that button: the server sees `{}` and answers 400 with "Nombre requerido" and "Debe enviar items", and no order is placed. With the header added, the `null` fields still give 400 "Email inválido" and "Teléfono inválido". | Send `Content-Type: application/json`, as the newer checkout form does (frontend/main.js:1345), and leave the contact fields out. | not executed | `Checkout.QuickCheckoutRejected` | `Checkout.QuickCheckoutOmittingCommits` |
| frontend/admin.js:521-529 | Blank specifications are sent as `specifications: null`, which `optional().isString()` rejects. backend/admin.js:355 does the same. | Creating a product with the specifications field left empty: 400 "specifications must be a string". | Leave the field out when blank, so the column is stored as NULL. | not executed | `AdminClient.BlankSpecsRejected` | `AdminClient.OmittedBlankSpecsAccepted` |
