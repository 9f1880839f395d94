# Bookstore backend: order, cart, catalog and helper logic in Dafny

This project models the request logic of a NestJS bookstore backend whose
data lives in a relational database reached through Prisma. The database is
one `class Database` (module `Store`). Each table is a field holding a
sequence of rows in insertion order, so a Prisma `findFirst` is the first
matching row. Each service operation is a method that changes only the
tables it names in `modifies`. Each method states its reply (`status`,
`statusCode`, `message`, `data`) and the new contents of its tables, branch
by branch, in the order the service tests them.

The modules are:

- `Orders`: the user's single open (`CREATED`) order, found or created;
  line items with price and title snapshots; recomputation of `subtotal` and
  `grand_total`; owner-scoped lookups.
- `Carts`: one upserted cart per user, quantity clamping, quantity-scaled
  price snapshots, owner-scoped lookups and hard deletes.
- `Books`, `Vouchers`, `UserVouchers`, `BookAuthors` and `BookCategories`:
  catalog and assignment tables with soft-delete-aware existence checks and
  uniqueness conflicts.
- `Response`, `RolesGuard`, `Slug`/`SlugRuns`, `ZodFilter`, `FileUpload` and
  `MediaTypes`: the pure helpers.
- `Common`: the reply envelope and the error replies the services share.

Error paths are modelled as replies, not preconditions:

- A zod failure caught by a service's own `catch` is a 422
  `'validation fail'` (`Common.ValidationFail`).
- A zod failure that reaches the global filter is a 422
  `'Validation failed'` (`Common.FilteredValidationFail`).
- A Prisma or runtime error the service catches is a 500 whose message is
  the error's own text, with `'Internal server error.'` as the fallback.
  The error's text is not modelled, so the model uses the fallback text
  (`Common.InternalError`).
- An error nobody catches is Nest's 500 `'Internal server error'`
  (`Common.UnhandledError`).

Money is in integer cents.

## Model

| member | source | states |
|---|---|---|
| Response.ResponseValue | src/utils/response.ts:3-9 | the reply carries exactly the given status, code and message and no data |
| Response.ResponseValueWithData | src/utils/response.ts:11-18 | the reply carries the given status, code and message and the data |
| Response.ResponseValueWithPaginate | src/utils/response.ts:20-44 | perPage ≥ 1 (0 or missing → 10, a positive value kept); totalItems ≥ 0 and equal to the input when non-negative; totalPages ≥ 1, covers every item and has no empty page except the single page of an empty listing; page in [1, totalPages] (0 or missing → 1, an in-range page kept); items passed through unchanged |
| RolesGuard.CanActivate | src/auth/roles.guard.ts:19-39 | no roles declared (or an empty list) → allowed with no role lookup; roles but no caller id → 403 'Unauthorized'; otherwise allowed iff the looked-up role is among the required ones, else 403 'Insufficient role'; never a plain refusal |
| RolesGuard.HandlerRolesOverrideClass | src/auth/roles.guard.ts:20-23 | when the handler declares roles, the class's roles do not affect the decision |
| RolesGuard.ClassRolesApplyWithoutHandlerRoles | src/auth/roles.guard.ts:20-23 | without handler roles, the class's roles decide as if declared on the handler |
| RolesGuard.CustomerRefusedOnAdminEndpoint | src/auth/roles.guard.ts:33-37 | a caller whose role is CUSTOMER is refused with 'Insufficient role' on an ADMIN endpoint |
| Slug.SlugWithId | src/utils/generate-slug.ts:11-48 | the result is slug + '-' + id when the normalised slug is non-empty, and the id alone otherwise; the id is the preset id when given |
| Slug.PresetIdIsSuffix | src/utils/generate-slug.ts:29-30 | with a preset id, the result ends in exactly that id |
| Slug.NormalizeShape | src/utils/generate-slug.ts:20-27 | the slug never starts or ends with '-' and never holds two in a row; with lower-casing it holds only a-z, 0-9 and '-' |
| Slug.CollapseKeepsSingleSeparators | src/utils/generate-slug.ts:24 | collapsing separator runs leaves a text without doubled separators unchanged |
| Slug.TrimShape | src/utils/generate-slug.ts:25 | trimming a single-separated text leaves no separator at either end |
| Slug.ToLowerShape | src/utils/generate-slug.ts:27 | lower-casing keeps the separator shape and yields only slug characters |
| Slug.NormalizeIdempotent | src/utils/generate-slug.ts:20-27 | normalising an already normalised slug gives it back unchanged |
| SlugRuns.ReplaceRunsIsJoinedRuns | src/utils/generate-slug.ts:23 | replacing non-alphanumeric runs gives the maximal alphanumeric runs joined by single separators, with at most one separator at each end |
| SlugRuns.NormalizeIsJoinedRuns | src/utils/generate-slug.ts:20-27 | the slug is the input's maximal alphanumeric runs, in order, joined by '-' (lower-cased when asked) |
| Slug.ShortId | src/utils/generate-slug.ts:41-45 | the "short" id has length exactly uniqueLength (0 when negative) and is a prefix of the random chunks drawn |
| ZodFilter.Catch | src/common/filters/zod-exception.filter.ts:11-22 | the reply is 422, success false, 'Validation failed', and its errors are the issues grouped by field |
| ZodFilter.GroupAllIsMessagesFor | src/common/filters/zod-exception.filter.ts:11-13 | a field is a key iff some issue is filed under it, and its list is that field's messages in issue order |
| ZodFilter.MessagesForNonEmpty | src/common/filters/zod-exception.filter.ts:12 | a field has messages iff some issue's first path element (or 'root') is that field |
| ZodFilter.GroupAllKeys | src/common/filters/zod-exception.filter.ts:11-15 | the key set is exactly the set of issue fields; no issues gives the empty map |
| ZodFilter.FieldsInOrderAreKeys | src/common/filters/zod-exception.filter.ts:11-15 | the fields in first-appearance order are distinct and are exactly the keys |
| ZodFilter.MessageCountIsIssueCount | src/common/filters/zod-exception.filter.ts:11-15 | the messages across all keys number exactly as many as the issues |
| FileUpload.FileDataResponse | src/common/file-upload.service.ts:15-23 | every field of the upload is carried over under its renamed key |
| FileUpload.FileDataRoundTrip | src/common/file-upload.service.ts:15-23 | renaming the fields back gives the original upload |
| FileUpload.HandleFileUpload | src/common/file-upload.service.ts:25-51 | a missing file → 404 'File Not Found' first; a MIME type outside the list → 409 'Invalid File Type'; then size > max → 409 'File is too large!'; success iff all checks pass, with 200 and the renamed file data |
| FileUpload.EmptyListRejectsEveryFile | src/common/file-upload.service.ts:36-38 | an empty allowed list rejects every file as 'Invalid File Type' |
| FileUpload.SizeAtLimitAccepted | src/common/file-upload.service.ts:41-43 | a size equal to the maximum is accepted |
| MediaTypes.AllowedMimeTypes | src/media/media.controller.ts:41-62 | the image, document and word names map to their fixed lists; an unknown name maps to [] |
| MediaTypes.AllowedMimeTypeByParent | src/media/media.controller.ts:64-79 | 'book' and 'profile' get the image list; every other parent gets none |
| MediaTypes.WordWithinDocument | src/media/media.controller.ts:50-58 | every 'word' MIME type is also a 'document' MIME type |
| MediaTypes.CheckUpload | src/media/media.controller.ts:83-91 | an upload proceeds iff the file is present, an image type, for 'book' or 'profile', and at most 10 × 1024 × 1024 bytes; a refusal fails with 500 |
| MediaTypes.UnknownParentAlwaysRejected | src/media/media.controller.ts:88-89 | for any other parent type every upload is refused ('Invalid File Type' from the upload check) |
| Store.NotUuidWithoutDash | src/book/book.service.ts:42 | a parameter without a dash after its first eight characters is looked up by slug, never by id |
| Books.CheckBookMustExists | src/book/book.service.ts:41-50 | a UUID is looked up by id and anything else by slug; a found book matches and is not deleted; none is found iff no live book matches |
| Books.Create | src/book/book.service.ts:60-83 | the client's slug is replaced by a generated one; invalid fields → 422; a title held by any book, deleted or not → 409 'Book Already in Database' with no write; otherwise exactly one book is appended and 201 returned |
| Books.UpdatedBook | src/book/book.service.ts:164-175 | the written row takes every field the request carries, keeps the stored description when the request omits it, and keeps the id and the deleted flag |
| Books.Update | src/book/book.service.ts:148-180 | a missing or deleted book → 404 'Book Not Found'; the slug is regenerated unless the request repeats the stored one; invalid fields → 422 from the filter; otherwise only that row is rewritten, an omitted description kept; 200 |
| Books.Remove | src/book/book.service.ts:182-199 | a missing or deleted book → 404; a book found by slug names no row id, and the uncaught Prisma error gives Nest's 500; otherwise only its deleted flag is set |
| Books.RemoveBySlugFails | src/book/book.service.ts:184-196 | a slug parameter that passes the lookup names no row id, so the soft-delete write cannot apply |
| Books.SoftDeletedBookNotFound | src/book/book.service.ts:41-50 | after a soft delete the lookup by id finds nothing, and a lookup by its slug finds no row with its id |
| Books.Search | src/book/book.service.ts:85-135 | a title filter names fields books lack, and the uncaught Prisma error gives Nest's 500; otherwise the page holds only live books, at most `size` of them, while totalItems counts every book |
| Books.CountIncludesDeletedBooks | src/book/book.service.ts:109-121 | a table with one deleted book lists nothing but reports totalItems 1 |
| Orders.CheckOrderItemMustExists | src/order/order.service.ts:99-120 | an item is found iff one with that id lies in an order of the caller, deleted or not |
| Orders.SubtotalAppend | src/order/order.service.ts:79-85 | appending an item adds its line total to its own order's subtotal only |
| Orders.SubtotalReplace | src/order/order.service.ts:79-85 | rewriting an item replaces its contribution and leaves the rest of the sum |
| Orders.SubtotalWithoutItems | src/order/order.service.ts:79-85 | an order no item refers to has subtotal 0 |
| Orders.SoftDeleteKeepsSubtotal | src/order/order.service.ts:79-85 | soft-deleting an item does not change any subtotal (the sum has no deleted filter) |
| Orders.RecalculatedOrder | src/order/order.service.ts:83-96 | subtotal = sum of line totals of the order's items; grand_total = subtotal + shipping_cost − discount_total; no other field changes |
| Orders.RecalculateWritesOnlyTotals | src/order/order.service.ts:73-97 | recalculation changes only the two totals of the named order, and nothing when the order is missing |
| Orders.RecalculateSetsTotals | src/order/order.service.ts:83-96 | after recalculation the named order carries the sum and the grand-total formula |
| Orders.RecalculateIdempotent | src/order/order.service.ts:73-97 | two recalculations with no item change give the same orders as one |
| Orders.RecalculateRestoresTotals | src/order/order.service.ts:73-97 | after an item change that touches one order, recalculating that order makes every order's totals consistent again |
| Orders.InsertItemKeepsValid | src/order/order.service.ts:230-250 | inserting an item with a fresh id in an existing order, then recalculating, keeps the order invariant |
| Orders.ReplaceItemKeepsValid | src/order/order.service.ts:375-395 | rewriting an item within its order, then recalculating, keeps the order invariant |
| Orders.SoftDeleteKeepsValid | src/order/order.service.ts:420-447 | a soft delete keeps the invariant, totals included, without a recalculation |
| Orders.OpenOrderStep | src/order/order.service.ts:39-71 | a missing address fails; an existing open order of the user is reused with only its shipping address overwritten; otherwise exactly one CREATED order is appended with subtotal, discount and grand total 0 |
| Orders.OpenOrderStepKeepsValid | src/order/order.service.ts:39-71 | the step keeps at most one open order per user and keeps every existing order |
| Orders.OpenOrderReused | src/order/order.service.ts:43-55 | when the user has an open order, that one is reused and no order is added |
| Orders.CreateOrderIfNotExists | src/order/order.service.ts:39-71 | the orders table becomes the step's table; unchanged when the address is missing |
| Orders.RecalculateOrderTotals | src/order/order.service.ts:73-97 | the orders table becomes its recalculation for the order |
| Orders.NewItem | src/order/order.service.ts:227-248 | the item's price snapshot is the book's price, line_total = price × qty, live |
| Orders.CreateItem | src/order/order.service.ts:194-273 | 422; unknown or deleted book → 404 before any order write; missing address → 500; an item of that order already holding the book (even deleted) → 409 with the open order kept but no item; otherwise one item is inserted, the totals recalculated and 201 returned; the order invariant holds throughout |
| Orders.UpdatedItem | src/order/order.service.ts:365-393 | the snapshots are kept unless the book changes, when they are the new book's; line_total = snapshot × qty; id, order and deleted flag kept |
| Orders.UpdateItem | src/order/order.service.ts:348-418 | 422; an item not in the caller's orders → 500; a changed book that is not found → 500; otherwise only that item is rewritten and its order recalculated; 200 |
| Orders.RemoveItem | src/order/order.service.ts:420-447 | an item not in the caller's orders → 404 'Order Not Found'; otherwise only its deleted flag is set and the orders are untouched |
| Orders.Get | src/order/order.service.ts:329-346 | success iff an item with that id lies in one of the caller's orders; it returns that item |
| Orders.GetOnlyForOwner | src/order/order.service.ts:329-346 | with distinct item ids, two callers who can both read an item are the same user |
| Orders.Search | src/order/order.service.ts:275-327 | an invalid query → 500; otherwise the page holds only items of the caller's orders, at most `size`, with totalItems their count |
| Orders.SearchFirstPageOrder | src/order/order.service.ts:285-300 | the first page begins with the caller's oldest item, or the newest for "desc" |
| Carts.CheckCartMustExists | src/cart/cart.service.ts:42-53 | an item is found iff one with that id lies in a cart of the caller |
| Carts.UpsertCart | src/cart/cart.service.ts:25-40 | an existing cart of the user is returned and the table kept; otherwise exactly one active cart is appended |
| Carts.UpsertKeepsValid | src/cart/cart.service.ts:25-40 | the upsert keeps one cart per user and keeps every existing cart |
| Carts.UpsertIdempotent | src/cart/cart.service.ts:25-40 | a second upsert for the same user changes nothing |
| Carts.CheckOrCreateCart | src/cart/cart.service.ts:25-40 | the carts table and the returned cart are the upsert's |
| Carts.ClampQty | src/cart/cart.service.ts:214 | the quantity is at least 1, a positive quantity is kept, and anything less becomes 1 |
| Carts.ItemRow | src/cart/cart.service.ts:232-242 | price_snapshot = book price × clamped quantity; the ids and note are the request's |
| Carts.Create | src/cart/cart.service.ts:201-264 | the cart is upserted first, even when the request then fails; 422; missing book → 404; the book already in the cart → 409; otherwise one item is inserted; 201; at most one item per book and cart is kept |
| Carts.Update | src/cart/cart.service.ts:266-330 | an item not in the caller's cart → 404; 422; missing book → 404; otherwise the item is re-snapshotted from the current price; 201 |
| Carts.UpdateCanRepeatBook | src/cart/cart.service.ts:291-308 | in any table, rewriting item k (the row update writes) to the book of another item j of the same cart leaves that cart with two items for one book: update does no uniqueness check |
| Carts.Remove | src/cart/cart.service.ts:332-356 | an item not in the caller's cart → 404; otherwise exactly that row is deleted |
| Carts.RemovedItemNotFound | src/cart/cart.service.ts:332-356 | after the delete the same lookup finds nothing |
| Carts.Get | src/cart/cart.service.ts:160-199 | success iff an item with that id lies in the caller's cart; it returns that item |
| Carts.Search | src/cart/cart.service.ts:109-158 | an invalid query → 500; otherwise only items of the caller's cart, at most `size`, with totalItems their count |
| Carts.SearchNewestFirst | src/cart/cart.service.ts:125-131 | the first page begins with the caller's newest item |
| Vouchers.CheckVoucherMustExists | src/voucher/voucher.service.ts:27-54 | the plain mode finds a live voucher with that id; the detail mode finds one that is all-user (deleted or not) or live and granted to the user |
| Vouchers.DetailAgreesWithListingWhenLive | src/voucher/voucher.service.ts:28-45 | for a live voucher, the detail lookup agrees with the user's listing |
| Vouchers.DeletedAllUserVoucherStillFound | src/voucher/voucher.service.ts:28-46 | a deleted all-user voucher is still found by the detail lookup, though not listed and not found by the plain lookup |
| Vouchers.StoredUpperLimit | src/voucher/voucher.service.ts:69 | a missing upper limit is 0 and a given one is kept |
| Vouchers.Row | src/voucher/voucher.service.ts:96-101 | the stored row carries the request's fields, the upper limit defaulted to 0, and is live |
| Vouchers.Create | src/voucher/voucher.service.ts:77-139 | invalid fields → 422; a live voucher with that code → 409; otherwise one row is appended; 201; live codes stay distinct |
| Vouchers.Update | src/voucher/voucher.service.ts:261-324 | 422; a missing or deleted voucher → 404; otherwise only that row is rewritten, keeping all_user |
| Vouchers.UpdateCanRepeatLiveCode | src/voucher/voucher.service.ts:281-289 | in any table, rewriting voucher i (the row update writes) with the code of another live voucher j leaves two live vouchers with one code |
| Vouchers.Remove | src/voucher/voucher.service.ts:326-363 | a missing or deleted voucher → 404; otherwise only its deleted flag is set |
| Vouchers.RemovedVoucherNotFound | src/voucher/voucher.service.ts:330-350 | after the soft delete the plain lookup finds nothing |
| Vouchers.Get | src/voucher/voucher.service.ts:225-259 | success iff the detail lookup finds the voucher; it returns it |
| Vouchers.Search | src/voucher/voucher.service.ts:141-223 | invalid queries or a discount filter → 500; otherwise only live vouchers visible to the caller, at most `size` |
| Vouchers.UserListingWithinPublicListing | src/voucher/voucher.service.ts:156-177 | a user's listing is part of the listing without a user |
| UserVouchers.BadId | src/user-voucher/user-voucher.service.ts:68-97 | a non-UUID id gives 422 'validation fail' with one error naming the field |
| UserVouchers.CheckUserVoucherMustExists | src/user-voucher/user-voucher.service.ts:30-39 | a row is found iff a live row has that id |
| UserVouchers.CreateCheck | src/user-voucher/user-voucher.service.ts:68-142 | the checks run in order: user id UUID (422), voucher id UUID (422), voucher exists (404), user exists (404), no live grant of the pair (409); none fails iff all hold |
| UserVouchers.Create | src/user-voucher/user-voucher.service.ts:59-188 | a failed check writes nothing and returns its reply; otherwise exactly one row is inserted and 201 returned; live grants stay distinct per pair |
| UserVouchers.Update | src/user-voucher/user-voucher.service.ts:282-376 | UUID checks (422), missing voucher (404), missing or deleted grant (404); otherwise only that row is rewritten; 201 |
| UserVouchers.UpdateCanDuplicateGrant | src/user-voucher/user-voucher.service.ts:343-352 | in any table, rewriting live grant k (the row update writes) to the user and voucher of another live grant j leaves two live grants of one pair |
| UserVouchers.Remove | src/user-voucher/user-voucher.service.ts:378-420 | a missing or deleted grant → 404; otherwise only its deleted flag is set |
| UserVouchers.SecondRemoveNotFound | src/user-voucher/user-voucher.service.ts:378-401 | after a remove, the same id is no longer found |
| BookAuthors.Create | src/book-author/book-author.service.ts:54-91 | 422; missing book → 404; missing author → 404 'Author is not found'; an existing pair → 409; otherwise one link with the requested ids and ord is appended; 201; pairs stay distinct |
| BookAuthors.Update | src/book-author/book-author.service.ts:93-120 | a missing link → 404; 422; otherwise only that link is rewritten, with no pair check; 200 |
| BookAuthors.UpdateCanRepeatPair | src/book-author/book-author.service.ts:105-115 | in any table, rewriting link k (the row update writes) to the book and author of another link j repeats that pair |
| BookAuthors.Remove | src/book-author/book-author.service.ts:122-136 | a missing link → 404; otherwise exactly that row is deleted |
| BookCategories.LookupFailure | src/book-category/book-category.service.ts:61-71 | a missing book → 404 'Book Not Found' first, then a missing category → 404 'Category Not Found' |
| BookCategories.Create | src/book-category/book-category.service.ts:53-89 | 422; the lookups; an existing pair → 409; otherwise one link with exactly the requested ids is appended; 201; pairs stay distinct |
| BookCategories.Update | src/book-category/book-category.service.ts:91-129 | 422; a missing link → 404; the lookups; otherwise only that link is rewritten, with no pair check; 200 |
| BookCategories.UpdateCanRepeatPair | src/book-category/book-category.service.ts:115-124 | in any table, rewriting link k (the row update writes) to the book and category of another link j repeats that pair |
| BookCategories.Remove | src/book-category/book-category.service.ts:131-145 | a missing link → 404; otherwise exactly that row is deleted |

## Left out

- Prisma, HTTP plumbing, controllers (except the MIME tables and the upload call), modules, logging and transactions: a `$transaction` is one sequential step, and requests run one at a time.
- Concurrency: the find-or-create race on the open order is outside a sequential model.
- Floating-point money: prices and totals are integer cents, and a quantity is an integer.
- Randomness, clocks and fresh ids: generated ids, order codes, the "time" and "uuid" slug ids and the random chunks of the "short" id are parameters.
- The schema is not part of this model. Defaults and foreign keys are assumptions:
  - the default `shipping_cost` of a new order is a parameter;
  - the default `all_user` of a new voucher is a parameter;
  - `order.shipping_address_id` references addresses;
  - `order_item.book_id` and `cart_item.book_id` reference book rows;
  - `user_voucher.user_id` references users;
  - a write that breaks one of these gives 500 and changes nothing.
- Store.IsUuid: src/utils/is-uuid is not part of this model; it is taken to accept the canonical 8-4-4-4-12 hexadecimal form.
- RolesGuard.CanActivate: `getRoleByUserId` is a function parameter, and the reflector is given as the two declared role lists.
- Slug.SlugWithId: input is ASCII, so NFKD normalisation and the removal of combining marks are identities; only the default separator '-' is modelled.
- Response mappers (`toOrderItemResponse`, `cartResponse`, `bookResponse`, `voucherResponse`, `userVoucherResponse`) are not modelled; replies carry the stored row. Vouchers.StoredUpperLimit: a stored upper limit is never null here, so the 0 the response mapper reports for null is the value stored on create and update.
- The `errors` detail of a 422 caught inside a service is not modelled (except the UUID errors of user-voucher create and update). A caught non-HTTP error answers with its own `error.message`; that text is not modelled, and the model uses the fallback 'Internal server error.' in its place.
- Books.Update: the request's `id` is also written into the row; the model keeps the row's id, because the effect of changing a primary key depends on the schema.
- Books.Search: the title filter is modelled only as its failure. Its clauses name `first_name`/`last_name`, which books lack, so Prisma rejects the query.
- Vouchers.Search: the discount filter is modelled only as its failure (`contains` on a number is rejected by Prisma). `upper_limit` is validated but never applied to the query (it is only logged), so the listing is given by visibility alone.
- Orders.Search: the `status` parameter is validated but never applied to the query, so the model ignores it too; `order_by` decides the order.
- Orders.RemoveItem: `remove` does not recalculate totals. Because the sum has no `deleted_at` filter, the totals stay consistent anyway (Orders.SoftDeleteKeepsValid).
- Carts.ItemRow: the cart schema requires `note`, so the `?? null` default never applies and the note is always the request's.
- Carts.CheckOrCreateCart: the user of an upserted cart is assumed to exist.
- BookAuthors.Create: the null-author branch after the author lookup cannot be reached (the lookup throws), so it is not modelled.
- Books `get`, and the category, author, address, auth, user and media services, are not modelled beyond the lookups the modelled services call.
- `handleFileDelete`, file names and the media service's storage are filesystem work and are left out.
