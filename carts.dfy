/** src/cart/cart.service.ts: every user has one cart, created on first use,
    and the cart items point at books. */
module Carts {
  import opened Common
  import opened Store
  import Books
  import Response

  function CartKey(c: Cart): Id { c.id }
  function CartUser(c: Cart): Id { c.userId }
  function ItemKey(it: CartItem): Id { it.id }

  predicate HasCart(carts: seq<Cart>, id: Id) {
    exists c :: c in carts && c.id == id
  }

  /** The user a cart belongs to, when the cart exists. */
  function OwnerOf(carts: seq<Cart>, cartId: Id): Option<Id> {
    match FindFirst(carts, (c: Cart) => c.id == cartId)
    case None => None
    case Some(i) => Some(carts[i].userId)
  }

  /** The `cart: { user_id }` part of the item where clauses. */
  predicate OwnedBy(carts: seq<Cart>, userId: Id, it: CartItem) {
    OwnerOf(carts, it.cartId) == Some(userId)
  }

  /** Ids are distinct, `user_id` is unique (the upsert is keyed on it) and
      every item's cart exists. */
  predicate Valid(carts: seq<Cart>, items: seq<CartItem>) {
    && KeysDistinct(carts, CartKey)
    && KeysDistinct(carts, CartUser)
    && KeysDistinct(items, ItemKey)
    && forall it :: it in items ==> HasCart(carts, it.cartId)
  }

  /** checkCartMustExists: the position of the item with this id in one of
      the user's carts. */
  function CheckCartMustExists(carts: seq<Cart>, items: seq<CartItem>, id: Id, userId: Id): (r: Option<nat>)
    ensures r.Some? ==> r.value < |items| && items[r.value].id == id && OwnedBy(carts, userId, items[r.value])
    ensures r.None? <==> forall k :: 0 <= k < |items| ==> !(items[k].id == id && OwnedBy(carts, userId, items[k]))
  {
    FindFirst(items, (it: CartItem) => it.id == id && OwnedBy(carts, userId, it))
  }

  // ---------------------------------------------------------------------
  // checkOrCreateCart

  /** The `upsert` of checkOrCreateCart: the user's cart, or a new active
      one. Yields the table and the position of the user's cart. */
  function UpsertCart(carts: seq<Cart>, userId: Id, newId: Id): (r: (seq<Cart>, nat))
    ensures r.1 < |r.0| && r.0[r.1].userId == userId
    ensures (exists c :: c in carts && c.userId == userId) ==> r.0 == carts
    ensures (forall c :: c in carts ==> c.userId != userId) ==> r.0 == carts + [Cart(newId, userId, true)]
  {
    match FindFirst(carts, (c: Cart) => c.userId == userId)
    case Some(i) => (carts, i)
    case None => (carts + [Cart(newId, userId, true)], |carts|)
  }

  /** The upsert keeps the invariant and every existing cart. */
  lemma UpsertKeepsValid(carts: seq<Cart>, items: seq<CartItem>, userId: Id, newId: Id)
    requires Valid(carts, items) && FreshKey(carts, CartKey, newId)
    ensures var r := UpsertCart(carts, userId, newId);
            Valid(r.0, items) && forall x :: HasCart(carts, x) ==> HasCart(r.0, x)
  {
    var r := UpsertCart(carts, userId, newId);
    if forall c :: c in carts ==> c.userId != userId {
      AppendFreshKey(carts, CartKey, r.0[|carts|]);
      assert forall i :: 0 <= i < |carts| ==> CartUser(carts[i]) != userId by {
        forall i | 0 <= i < |carts|
          ensures CartUser(carts[i]) != userId
        {
          assert carts[i] in carts;
        }
      }
      AppendFreshKey(carts, CartUser, r.0[|carts|]);
      assert forall it :: it in items ==> HasCart(r.0, it.cartId) by {
        forall it | it in items
          ensures HasCart(r.0, it.cartId)
        {
          var c :| c in carts && c.id == it.cartId;
          assert c in r.0;
        }
      }
      assert forall x :: HasCart(carts, x) ==> HasCart(r.0, x) by {
        forall x | HasCart(carts, x)
          ensures HasCart(r.0, x)
        {
          var c :| c in carts && c.id == x;
          assert c in r.0;
        }
      }
    }
  }

  /** A second upsert for the same user changes nothing and finds the cart
      the first one returned: one cart per user. */
  lemma UpsertIdempotent(carts: seq<Cart>, userId: Id, newId: Id, otherId: Id)
    requires KeysDistinct(carts, CartUser)
    ensures var once := UpsertCart(carts, userId, newId);
            UpsertCart(once.0, userId, otherId) == once
  {
    var once := UpsertCart(carts, userId, newId);
    assert once.0[once.1] in once.0;
    var again := UpsertCart(once.0, userId, otherId);
    assert again.0 == once.0;
    assert once.0[again.1].userId == userId;
    if once.0 == carts {
      assert CartUser(carts[again.1]) == CartUser(carts[once.1]);
    } else {
      assert forall i :: 0 <= i < |carts| ==> once.0[i] == carts[i];
    }
  }

  method CheckOrCreateCart(db: Database, userId: Id, newId: Id) returns (index: nat)
    modifies db`carts
    ensures (db.carts, index) == UpsertCart(old(db.carts), userId, newId)
  {
    var r := UpsertCart(db.carts, userId, newId);
    db.carts, index := r.0, r.1;
  }

  // ---------------------------------------------------------------------
  // The cart item operations

  /** CartItemValidation.CREATE / UPDATE: book_id, qty and note are required,
      and id as well for an update. */
  datatype CreateRequest = CreateRequest(bookId: Option<string>, qty: Option<int>, note: Option<string>)
  datatype UpdateRequest = UpdateRequest(id: Option<string>, bookId: Option<string>, qty: Option<int>,
                                         note: Option<string>)

  predicate ValidCreate(q: CreateRequest) { q.bookId.Some? && q.qty.Some? && q.note.Some? }
  predicate ValidUpdate(q: UpdateRequest) { q.id.Some? && q.bookId.Some? && q.qty.Some? && q.note.Some? }

  /** `Math.max(1, Number(qty) || 1)`: at least one; any positive quantity
      is kept. */
  function ClampQty(q: int): (r: int)
    ensures r >= 1
    ensures q >= 1 ==> r == q
    ensures q < 1 ==> r == 1
  {
    Response.Max(1, if q == 0 then 1 else q)
  }

  /** The row create and update write: the price snapshot is the book's
      price times the quantity. */
  function ItemRow(id: Id, cartId: Id, bookId: Id, book: Book, qty: int, note: string): (it: CartItem)
    ensures it.qty >= 1 && it.priceSnapshot == book.price * it.qty
    ensures it.bookId == bookId && it.cartId == cartId && it.id == id && it.note == Some(note)
  {
    var n := ClampQty(qty);
    CartItem(id, cartId, bookId, n, book.price * n, Some(note))
  }

  /** The isUnique check of create: the cart already holds this book id. */
  predicate BookInCart(items: seq<CartItem>, cartId: Id, bookId: Id) {
    exists it :: it in items && it.cartId == cartId && it.bookId == bookId
  }

  /** No cart holds two items for the same book. */
  predicate BooksDistinctPerCart(items: seq<CartItem>) {
    forall i, j :: 0 <= i < j < |items| ==> !(items[i].cartId == items[j].cartId && items[i].bookId == items[j].bookId)
  }

  /** create: the cart upsert comes first and stays even when a later step
      fails; then validation (422), the book (404), the duplicate check (409),
      the insert (500 when `connect` finds no book row with that id), and 201. */
  method Create(db: Database, request: CreateRequest, userId: Id, newCartId: Id, newItemId: Id)
    returns (r: Reply<CartItem>)
    modifies db`carts, db`cartItems
    requires Valid(db.carts, db.cartItems)
    requires FreshKey(db.carts, CartKey, newCartId) && FreshKey(db.cartItems, ItemKey, newItemId)
    ensures Valid(db.carts, db.cartItems)
    ensures old(BooksDistinctPerCart(db.cartItems)) ==> BooksDistinctPerCart(db.cartItems)
    ensures var up := UpsertCart(old(db.carts), userId, newCartId);
            db.carts == up.0
            && if !ValidCreate(request) then r == ValidationFail() && db.cartItems == old(db.cartItems)
               else
                 var book := Books.CheckBookMustExists(db.books, request.bookId.value);
                 var cartId := up.0[up.1].id;
                 if book.None? then
                   r == Reply(false, NOT_FOUND, "Book Not Found", None) && db.cartItems == old(db.cartItems)
                 else if BookInCart(old(db.cartItems), cartId, request.bookId.value) then
                   r == Reply(false, CONFLICT, "Cart Already exist", None) && db.cartItems == old(db.cartItems)
                 else if !Books.IdExists(db.books, request.bookId.value) then
                   r == InternalError() && db.cartItems == old(db.cartItems)
                 else
                   var it := ItemRow(newItemId, cartId, request.bookId.value, book.value, request.qty.value,
                                     request.note.value);
                   db.cartItems == old(db.cartItems) + [it] && r == Reply(true, CREATED, "Successfully Created Data", Some(it))
  {
    UpsertKeepsValid(db.carts, db.cartItems, userId, newCartId);
    var index := CheckOrCreateCart(db, userId, newCartId);
    if !ValidCreate(request) {
      return ValidationFail();
    }
    var bookId := request.bookId.value;
    var book := Books.CheckBookMustExists(db.books, bookId);
    if book.None? {
      return Response.ResponseValue(false, NOT_FOUND, "Book Not Found");
    }
    var cartId := db.carts[index].id;
    if BookInCart(db.cartItems, cartId, bookId) {
      return Response.ResponseValue(false, CONFLICT, "Cart Already exist");
    }
    if !Books.IdExists(db.books, bookId) {
      return InternalError();
    }
    var it := ItemRow(newItemId, cartId, bookId, book.value, request.qty.value, request.note.value);
    AppendFreshKey(db.cartItems, ItemKey, it);
    assert db.carts[index] in db.carts;
    assert forall i :: 0 <= i < |db.cartItems| ==> db.cartItems[i] in db.cartItems;
    db.cartItems := db.cartItems + [it];
    r := Response.ResponseValueWithData(true, CREATED, "Successfully Created Data", it);
  }

  /** update: 404 unless the item is in the user's cart (a missing id makes
      the lookup itself fail: 500); the upsert finds that cart; validation
      (422); the book (404); the row is rewritten into the user's cart (500
      when `connect` finds no book row) and the reply is a 201. No duplicate
      check is made here. */
  /** The owner of an item has a cart. */
  lemma OwnerHasCart(carts: seq<Cart>, userId: Id, it: CartItem)
    requires OwnedBy(carts, userId, it)
    ensures exists c :: c in carts && c.userId == userId
  {
    var i := FindFirst(carts, (c: Cart) => c.id == it.cartId).value;
    assert carts[i] in carts;
  }

  /** Rewriting an item in place, into an existing cart, keeps the invariant. */
  lemma RewriteItemKeepsValid(carts: seq<Cart>, items: seq<CartItem>, k: nat, it: CartItem)
    requires Valid(carts, items) && k < |items| && it.id == items[k].id
    requires exists c :: c in carts && c.id == it.cartId
    ensures Valid(carts, items[k := it])
  {
    ReplaceSameKey(items, ItemKey, k, it);
    forall x | x in items[k := it] ensures HasCart(carts, x.cartId) {
      var j :| 0 <= j < |items| && items[k := it][j] == x;
      if j != k { assert x == items[j] && x in items; }
    }
  }

  method Update(db: Database, request: UpdateRequest, userId: Id, newCartId: Id) returns (r: Reply<CartItem>)
    modifies db`cartItems
    requires Valid(db.carts, db.cartItems)
    ensures Valid(db.carts, db.cartItems)
    ensures request.id.None? ==> r == InternalError() && db.cartItems == old(db.cartItems)
    ensures request.id.Some? ==>
              var k := CheckCartMustExists(db.carts, old(db.cartItems), request.id.value, userId);
              if k.None? then r == Reply(false, NOT_FOUND, "Cart Not Found", None) && db.cartItems == old(db.cartItems)
              else if !ValidUpdate(request) then r == ValidationFail() && db.cartItems == old(db.cartItems)
              else
                var book := Books.CheckBookMustExists(db.books, request.bookId.value);
                var up := UpsertCart(db.carts, userId, newCartId);
                if book.None? then
                  r == Reply(false, NOT_FOUND, "Book Not Found", None) && db.cartItems == old(db.cartItems)
                else if !Books.IdExists(db.books, request.bookId.value) then
                  r == InternalError() && db.cartItems == old(db.cartItems)
                else
                  up.0 == db.carts
                  && var it := ItemRow(request.id.value, up.0[up.1].id, request.bookId.value, book.value,
                                       request.qty.value, request.note.value);
                  db.cartItems == old(db.cartItems)[k.value := it]
                  && r == Reply(true, CREATED, "Successfully Updated Data", Some(it))
  {
    if request.id.None? {
      return InternalError();
    }
    var k := CheckCartMustExists(db.carts, db.cartItems, request.id.value, userId);
    if k.None? {
      return Response.ResponseValue(false, NOT_FOUND, "Cart Not Found");
    }
    // The item's cart is the user's, so the upsert finds it and writes nothing.
    OwnerHasCart(db.carts, userId, db.cartItems[k.value]);
    var up := UpsertCart(db.carts, userId, newCartId);
    if !ValidUpdate(request) {
      return ValidationFail();
    }
    var book := Books.CheckBookMustExists(db.books, request.bookId.value);
    if book.None? {
      return Response.ResponseValue(false, NOT_FOUND, "Book Not Found");
    }
    if !Books.IdExists(db.books, request.bookId.value) {
      return InternalError();
    }
    var it := ItemRow(request.id.value, up.0[up.1].id, request.bookId.value, book.value, request.qty.value,
                      request.note.value);
    assert up.0[up.1] in db.carts;
    RewriteItemKeepsValid(db.carts, db.cartItems, k.value, it);
    db.cartItems := db.cartItems[k.value := it];
    r := Response.ResponseValueWithData(true, CREATED, "Successfully Updated Data", it);
  }

  /** update can leave a cart with two items for the same book. */
  lemma UpdateCanRepeatBook(items: seq<CartItem>, k: nat, j: nat, book: Book, qty: int, note: string)
    requires k < |items| && j < |items| && k != j && items[k].cartId == items[j].cartId
    ensures !BooksDistinctPerCart(items[k := ItemRow(items[k].id, items[k].cartId, items[j].bookId, book, qty, note)])
  {
    var after := items[k := ItemRow(items[k].id, items[k].cartId, items[j].bookId, book, qty, note)];
    var lo, hi := if j < k then j else k, if j < k then k else j;
    assert after[lo].cartId == after[hi].cartId && after[lo].bookId == after[hi].bookId;
  }

  /** remove: 404 unless the item is in the user's cart; then the row is
      deleted outright. */
  method Remove(db: Database, id: Id, userId: Id) returns (r: Reply<CartItem>)
    modifies db`cartItems
    requires Valid(db.carts, db.cartItems)
    ensures Valid(db.carts, db.cartItems)
    ensures var k := CheckCartMustExists(db.carts, old(db.cartItems), id, userId);
            if k.None? then r == Reply(false, NOT_FOUND, "Cart Not Found", None) && db.cartItems == old(db.cartItems)
            else r == Reply(true, OK, "Successfully Deleted Data", None) && db.cartItems == RemoveAt(old(db.cartItems), k.value)
  {
    var k := CheckCartMustExists(db.carts, db.cartItems, id, userId);
    if k.None? {
      return Response.ResponseValue(false, NOT_FOUND, "Cart Not Found");
    }
    RemoveAtKeepsDistinct(db.cartItems, ItemKey, k.value);
    db.cartItems := RemoveAt(db.cartItems, k.value);
    r := Response.ResponseValue(true, OK, "Successfully Deleted Data");
  }

  /** After a remove the id is gone from the table. */
  lemma RemovedItemNotFound(carts: seq<Cart>, items: seq<CartItem>, id: Id, userId: Id)
    requires KeysDistinct(items, ItemKey)
    requires CheckCartMustExists(carts, items, id, userId).Some?
    ensures var k := CheckCartMustExists(carts, items, id, userId).value;
            CheckCartMustExists(carts, RemoveAt(items, k), id, userId).None?
  {
    var k := CheckCartMustExists(carts, items, id, userId).value;
    RemoveAtKeepsDistinct(items, ItemKey, k);
  }

  /** get: the item in the user's cart with a 200, or 404. */
  function Get(carts: seq<Cart>, items: seq<CartItem>, id: Id, userId: Id): (r: Reply<CartItem>)
    ensures r.status <==> exists k :: 0 <= k < |items| && items[k].id == id && OwnedBy(carts, userId, items[k])
    ensures r.status ==> r.statusCode == OK && r.message == "Successfully Get Cart Item"
                         && r.data.Some? && r.data.value in items && r.data.value.id == id
                         && OwnedBy(carts, userId, r.data.value)
    ensures !r.status ==> r == Reply(false, NOT_FOUND, "Cart Not Found", None)
  {
    match CheckCartMustExists(carts, items, id, userId)
    case None => Response.ResponseValue(false, NOT_FOUND, "Cart Not Found")
    case Some(k) => Response.ResponseValueWithData(true, OK, "Successfully Get Cart Item", items[k])
  }

  /** CartItemValidation.SEARCH: page and size at least 1. */
  datatype SearchRequest = SearchRequest(page: Option<int>, size: Option<int>)

  predicate ValidSearch(q: SearchRequest) {
    q.page.Some? && q.page.value >= 1 && q.size.Some? && q.size.value >= 1
  }

  function ListedItems(carts: seq<Cart>, items: seq<CartItem>, userId: Id): seq<CartItem> {
    Filter(items, (it: CartItem) => OwnedBy(carts, userId, it))
  }

  /** search: a failed validation lands in the catch (500); otherwise one
      page of the user's items, newest first, and their count. */
  function Search(carts: seq<Cart>, items: seq<CartItem>, userId: Id, q: SearchRequest): (r: Reply<PageData<CartItem>>)
    ensures !ValidSearch(q) ==> r == InternalError()
    ensures ValidSearch(q) ==>
              r.status && r.statusCode == OK && r.message == "Successfully Get Cart Items" && r.data.Some?
              && r.data.value.totalItems == |ListedItems(carts, items, userId)|
              && r.data.value.perPage == q.size.value
              && |r.data.value.items| <= q.size.value
              && forall it :: it in r.data.value.items ==> it in items && OwnedBy(carts, userId, it)
  {
    if !ValidSearch(q) then InternalError()
    else
      var perPage := q.size.value;
      var page := q.page.value;
      var listed := ListedItems(carts, items, userId);
      var rows := Page(Reversed(listed), (page - 1) * perPage, perPage);
      assert forall it :: it in rows ==> it in listed;
      Response.ResponseValueWithPaginate(true, OK, "Successfully Get Cart Items", rows, Some(page), Some(perPage), |listed|)
  }

  /** The first page starts with the item added last. */
  lemma SearchNewestFirst(carts: seq<Cart>, items: seq<CartItem>, userId: Id, q: SearchRequest)
    requires ValidSearch(q) && q.page == Some(1)
    requires ListedItems(carts, items, userId) != []
    ensures var listed := ListedItems(carts, items, userId);
            var shown := Search(carts, items, userId, q).data.value.items;
            shown != [] && shown[0] == listed[|listed| - 1]
  {
  }
}
