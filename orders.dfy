/** src/order/order.service.ts: the line items of a user's open order and the
    order totals derived from them. */
module Orders {
  import opened Common
  import opened Store
  import Books
  import Response

  function OrderKey(o: Order): Id { o.id }
  function ItemKey(it: OrderItem): Id { it.id }

  function OrderIndex(orders: seq<Order>, id: Id): Option<nat> {
    FindFirst(orders, (o: Order) => o.id == id)
  }

  predicate HasOrder(orders: seq<Order>, id: Id) {
    exists j :: 0 <= j < |orders| && orders[j].id == id
  }

  /** The user an order belongs to, when the order exists. */
  function OwnerOf(orders: seq<Order>, orderId: Id): Option<Id> {
    match OrderIndex(orders, orderId)
    case None => None
    case Some(i) => Some(orders[i].userId)
  }

  /** The `order: { user_id }` part of the item where clauses. */
  predicate OwnedBy(orders: seq<Order>, userId: Id, it: OrderItem) {
    OwnerOf(orders, it.orderId) == Some(userId)
  }

  /** checkOrderItemMustExists: the position of the item with this id whose
      order belongs to `userId`. Soft-deleted items are not excluded. */
  function CheckOrderItemMustExists(orders: seq<Order>, items: seq<OrderItem>, id: Id, userId: Id): (r: Option<nat>)
    ensures r.Some? ==> r.value < |items| && items[r.value].id == id && OwnedBy(orders, userId, items[r.value])
    ensures r.None? <==> forall i :: 0 <= i < |items| ==> !(items[i].id == id && OwnedBy(orders, userId, items[i]))
  {
    FindFirst(items, (it: OrderItem) => it.id == id && OwnedBy(orders, userId, it))
  }

  // ---------------------------------------------------------------------
  // Totals

  /** What one item adds to the subtotal of `orderId`. */
  function Contribution(it: OrderItem, orderId: Id): int {
    if it.orderId == orderId then it.lineTotal else 0
  }

  /** The `reduce` of recalculateOrderTotals: the sum of `line_total` over all
      items of the order, soft-deleted ones included. */
  function SubtotalOf(items: seq<OrderItem>, orderId: Id): int {
    if items == [] then 0
    else SubtotalOf(items[..|items| - 1], orderId) + Contribution(items[|items| - 1], orderId)
  }

  lemma SubtotalAppend(items: seq<OrderItem>, it: OrderItem, orderId: Id)
    ensures SubtotalOf(items + [it], orderId) == SubtotalOf(items, orderId) + Contribution(it, orderId)
  {
    assert (items + [it])[..|items|] == items;
  }

  /** Replacing one item changes the subtotal by the difference of the two
      items' contributions. */
  lemma {:induction false} SubtotalReplace(items: seq<OrderItem>, i: nat, it: OrderItem, orderId: Id)
    requires i < |items|
    ensures SubtotalOf(items[i := it], orderId) == SubtotalOf(items, orderId) - Contribution(items[i], orderId) + Contribution(it, orderId)
  {
    var n := |items|;
    if i == n - 1 {
      assert items[i := it][..n - 1] == items[..n - 1];
    } else {
      SubtotalReplace(items[..n - 1], i, it, orderId);
      assert items[i := it][..n - 1] == items[..n - 1][i := it];
    }
  }

  lemma {:induction false} SubtotalWithoutItems(items: seq<OrderItem>, orderId: Id)
    requires forall i :: 0 <= i < |items| ==> items[i].orderId != orderId
    ensures SubtotalOf(items, orderId) == 0
  {
    if items != [] {
      SubtotalWithoutItems(items[..|items| - 1], orderId);
    }
  }

  /** Soft-deleting an item leaves every order's subtotal as it was: the
      recalculation has no `deleted_at` filter. */
  lemma SoftDeleteKeepsSubtotal(items: seq<OrderItem>, i: nat, orderId: Id)
    requires i < |items|
    ensures SubtotalOf(items[i := items[i].(deleted := true)], orderId) == SubtotalOf(items, orderId)
  {
    SubtotalReplace(items, i, items[i].(deleted := true), orderId);
  }

  /** The totals recalculateOrderTotals writes into one order: the subtotal,
      and the grand total as subtotal plus shipping minus discount. */
  function RecalculatedOrder(o: Order, items: seq<OrderItem>): (r: Order)
    ensures r.subtotal == SubtotalOf(items, o.id)
    ensures r.grandTotal == r.subtotal + o.shippingCost - o.discountTotal
    ensures r.(subtotal := o.subtotal, grandTotal := o.grandTotal) == o
  {
    var s := SubtotalOf(items, o.id);
    o.(subtotal := s, grandTotal := s + o.shippingCost - o.discountTotal)
  }

  /** recalculateOrderTotals on the orders table; nothing happens when the
      order does not exist. */
  function Recalculated(orders: seq<Order>, items: seq<OrderItem>, orderId: Id): seq<Order> {
    match OrderIndex(orders, orderId)
    case None => orders
    case Some(i) => orders[i := RecalculatedOrder(orders[i], items)]
  }

  /** Only the order with that id changes, and only in its subtotal and grand
      total; a missing order leaves the table unchanged. */
  lemma RecalculateWritesOnlyTotals(orders: seq<Order>, items: seq<OrderItem>, orderId: Id)
    ensures var r := Recalculated(orders, items, orderId);
            |r| == |orders|
            && (forall j :: 0 <= j < |orders| ==> r[j].(subtotal := orders[j].subtotal, grandTotal := orders[j].grandTotal) == orders[j])
            && (forall j :: 0 <= j < |orders| && orders[j].id != orderId ==> r[j] == orders[j])
            && (!HasOrder(orders, orderId) ==> r == orders)
  {
  }

  /** The recalculated order carries the sum of its items and the grand total
      derived from it. */
  lemma RecalculateSetsTotals(orders: seq<Order>, items: seq<OrderItem>, i: nat)
    requires KeysDistinct(orders, OrderKey) && i < |orders|
    ensures var r := Recalculated(orders, items, orders[i].id);
            r[i].subtotal == SubtotalOf(items, orders[i].id)
            && r[i].grandTotal == r[i].subtotal + orders[i].shippingCost - orders[i].discountTotal
  {
    FirstKeyIsOnly(orders, OrderKey, orders[i].id, i);
    assert OrderIndex(orders, orders[i].id) == FindFirst(orders, (o: Order) => OrderKey(o) == orders[i].id);
  }

  /** Two recalculations with no item change in between leave the same totals. */
  lemma RecalculateIdempotent(orders: seq<Order>, items: seq<OrderItem>, orderId: Id)
    ensures Recalculated(Recalculated(orders, items, orderId), items, orderId) == Recalculated(orders, items, orderId)
  {
    var once := Recalculated(orders, items, orderId);
    match OrderIndex(orders, orderId)
    case None =>
    case Some(i) =>
      assert forall j :: 0 <= j < |orders| ==> once[j].id == orders[j].id;
      assert OrderIndex(once, orderId) == Some(i);
  }

  // ---------------------------------------------------------------------
  // The invariant of the two tables

  predicate IsOpen(o: Order) { o.status == Created }

  /** createOrderIfNotExists never opens a second CREATED order for a user. */
  predicate OneOpenOrderPerUser(orders: seq<Order>) {
    forall i, j :: 0 <= i < j < |orders| && IsOpen(orders[i]) && IsOpen(orders[j]) ==> orders[i].userId != orders[j].userId
  }

  /** The order_id foreign key of order items. */
  predicate ItemsReferenceOrders(orders: seq<Order>, items: seq<OrderItem>) {
    forall k :: 0 <= k < |items| ==> HasOrder(orders, items[k].orderId)
  }

  predicate HasItems(items: seq<OrderItem>, orderId: Id) {
    exists k :: 0 <= k < |items| && items[k].orderId == orderId
  }

  /** The stored subtotal is the sum over the order's items; once an item has
      been added, the grand total is subtotal plus shipping minus discount
      (a new order starts with a grand total of 0 whatever its shipping cost). */
  predicate OrderConsistent(o: Order, items: seq<OrderItem>) {
    o.subtotal == SubtotalOf(items, o.id)
    && (HasItems(items, o.id) ==> o.grandTotal == o.subtotal + o.shippingCost - o.discountTotal)
  }

  predicate TotalsConsistent(orders: seq<Order>, items: seq<OrderItem>) {
    forall j :: 0 <= j < |orders| ==> OrderConsistent(orders[j], items)
  }

  predicate Valid(orders: seq<Order>, items: seq<OrderItem>) {
    && KeysDistinct(orders, OrderKey)
    && KeysDistinct(items, ItemKey)
    && ItemsReferenceOrders(orders, items)
    && OneOpenOrderPerUser(orders)
    && TotalsConsistent(orders, items)
  }

  /** After a change of the items that touches only the order `orderId`, a
      recalculation of that order restores the totals of every order. */
  lemma RecalculateRestoresTotals(orders: seq<Order>, items: seq<OrderItem>, changed: seq<OrderItem>, orderId: Id)
    requires KeysDistinct(orders, OrderKey) && TotalsConsistent(orders, items)
    requires forall x :: x != orderId ==> SubtotalOf(changed, x) == SubtotalOf(items, x)
    requires forall x :: x != orderId && HasItems(changed, x) ==> HasItems(items, x)
    ensures TotalsConsistent(Recalculated(orders, changed, orderId), changed)
  {
    var r := Recalculated(orders, changed, orderId);
    forall j | 0 <= j < |orders|
      ensures OrderConsistent(r[j], changed)
    {
      match OrderIndex(orders, orderId)
      case None =>
        assert orders[j].id != orderId;
      case Some(i) =>
        if j != i {
          assert OrderKey(orders[j]) != OrderKey(orders[i]);
          assert r[j] == orders[j];
        }
    }
  }

  /** Appending an item to an existing order, then recalculating it, keeps
      the invariant. */
  lemma InsertItemKeepsValid(orders: seq<Order>, items: seq<OrderItem>, it: OrderItem)
    requires Valid(orders, items) && HasOrder(orders, it.orderId) && FreshKey(items, ItemKey, it.id)
    ensures Valid(Recalculated(orders, items + [it], it.orderId), items + [it])
  {
    var changed := items + [it];
    AppendFreshKey(items, ItemKey, it);
    forall x | x != it.orderId
      ensures SubtotalOf(changed, x) == SubtotalOf(items, x)
    {
      SubtotalAppend(items, it, x);
    }
    forall x | x != it.orderId && HasItems(changed, x)
      ensures HasItems(items, x)
    {
      var k :| 0 <= k < |changed| && changed[k].orderId == x;
      assert changed[k] == items[k];
    }
    RecalculateRestoresTotals(orders, items, changed, it.orderId);
    RecalculateWritesOnlyTotals(orders, changed, it.orderId);
    var r := Recalculated(orders, changed, it.orderId);
    assert forall j :: 0 <= j < |orders| ==> r[j].id == orders[j].id && r[j].userId == orders[j].userId && r[j].status == orders[j].status;
    assert forall k :: 0 <= k < |changed| ==> HasOrder(orders, changed[k].orderId);
  }

  /** Rewriting an item in place, within its order, then recalculating that
      order, keeps the invariant. */
  lemma ReplaceItemKeepsValid(orders: seq<Order>, items: seq<OrderItem>, k: nat, it: OrderItem)
    requires Valid(orders, items) && k < |items| && it.id == items[k].id && it.orderId == items[k].orderId
    ensures Valid(Recalculated(orders, items[k := it], it.orderId), items[k := it])
  {
    var changed := items[k := it];
    ReplaceSameKey(items, ItemKey, k, it);
    forall x | x != it.orderId
      ensures SubtotalOf(changed, x) == SubtotalOf(items, x)
    {
      SubtotalReplace(items, k, it, x);
    }
    assert forall j :: 0 <= j < |changed| ==> changed[j].orderId == items[j].orderId;
    RecalculateRestoresTotals(orders, items, changed, it.orderId);
    RecalculateWritesOnlyTotals(orders, changed, it.orderId);
    var r := Recalculated(orders, changed, it.orderId);
    assert forall j :: 0 <= j < |orders| ==> r[j].id == orders[j].id && r[j].userId == orders[j].userId && r[j].status == orders[j].status;
  }

  /** A soft delete keeps the invariant without any recalculation: removal
      does not recalculate, and the recalculation counts deleted items. */
  lemma SoftDeleteKeepsValid(orders: seq<Order>, items: seq<OrderItem>, k: nat)
    requires Valid(orders, items) && k < |items|
    ensures Valid(orders, items[k := items[k].(deleted := true)])
  {
    var changed := items[k := items[k].(deleted := true)];
    ReplaceSameKey(items, ItemKey, k, changed[k]);
    forall x
      ensures SubtotalOf(changed, x) == SubtotalOf(items, x)
    {
      SoftDeleteKeepsSubtotal(items, k, x);
    }
    assert forall j :: 0 <= j < |changed| ==> changed[j].orderId == items[j].orderId;
  }

  // ---------------------------------------------------------------------
  // createOrderIfNotExists

  predicate IsOpenOf(userId: Id, o: Order) { o.userId == userId && IsOpen(o) }

  /** The `findFirst({user_id, status: 'CREATED'})` of createOrderIfNotExists. */
  function OpenOrderIndex(orders: seq<Order>, userId: Id): Option<nat> {
    FindFirst(orders, (o: Order) => IsOpenOf(userId, o))
  }

  /** The shipping_address_id foreign key of orders. */
  predicate AddressExists(addresses: seq<Address>, id: Id) {
    exists a :: a in addresses && a.id == id
  }

  /** Opening a fresh order fails when the address is unknown; otherwise the
      step yields the new orders table and the position of the open order. */
  datatype OpenStep = AddressMissing | Opened(orders: seq<Order>, index: nat)

  /** createOrderIfNotExists: the user's open order gets the new shipping
      address, or, when there is none, an order is created with zero totals
      and the schema's default shipping cost. Either write fails on an
      unknown address. */
  function OpenOrderStep(orders: seq<Order>, addresses: seq<Address>, userId: Id, addressId: Id,
                         newId: Id, code: string, shippingDefault: int): (r: OpenStep)
    ensures r.AddressMissing? <==> !AddressExists(addresses, addressId)
    ensures r.Opened? ==> r.index < |r.orders| && IsOpenOf(userId, r.orders[r.index])
                          && r.orders[r.index].shippingAddressId == addressId
    ensures r.Opened? && OpenOrderIndex(orders, userId).Some? ==>
              var i := OpenOrderIndex(orders, userId).value;
              r.index == i && r.orders == orders[i := orders[i].(shippingAddressId := addressId)]
    ensures r.Opened? && OpenOrderIndex(orders, userId).None? ==>
              r.index == |orders|
              && r.orders == orders + [Order(newId, code, userId, addressId, Created, 0, shippingDefault, 0, 0)]
  {
    if !AddressExists(addresses, addressId) then AddressMissing
    else match OpenOrderIndex(orders, userId)
      case Some(i) => Opened(orders[i := orders[i].(shippingAddressId := addressId)], i)
      case None => Opened(orders + [Order(newId, code, userId, addressId, Created, 0, shippingDefault, 0, 0)], |orders|)
  }

  /** The step keeps the invariant (in particular a single open order per
      user) and keeps every order that existed. */
  lemma OpenOrderStepKeepsValid(orders: seq<Order>, items: seq<OrderItem>, addresses: seq<Address>, userId: Id,
                                addressId: Id, newId: Id, code: string, shippingDefault: int)
    requires Valid(orders, items) && FreshKey(orders, OrderKey, newId)
    ensures var r := OpenOrderStep(orders, addresses, userId, addressId, newId, code, shippingDefault);
            r.Opened? ==> Valid(r.orders, items) && forall x :: HasOrder(orders, x) ==> HasOrder(r.orders, x)
  {
    var r := OpenOrderStep(orders, addresses, userId, addressId, newId, code, shippingDefault);
    if r.Opened? {
      match OpenOrderIndex(orders, userId)
      case Some(i) =>
        ReplaceSameKey(orders, OrderKey, i, r.orders[i]);
        assert forall j :: 0 <= j < |orders| ==> r.orders[j].id == orders[j].id;
        assert forall j :: 0 <= j < |orders| ==> OrderConsistent(r.orders[j], items);
      case None =>
        var n := r.orders[|orders|];
        AppendFreshKey(orders, OrderKey, n);
        assert forall k :: 0 <= k < |items| ==> items[k].orderId != newId;
        SubtotalWithoutItems(items, newId);
        assert OrderConsistent(n, items);
        assert forall j :: 0 <= j < |orders| ==> r.orders[j] == orders[j];
        assert forall j :: 0 <= j < |orders| ==> !IsOpenOf(userId, orders[j]);
    }
  }

  /** A user with an open order never gets a second one. */
  lemma OpenOrderReused(orders: seq<Order>, addresses: seq<Address>, userId: Id, addressId: Id,
                        newId: Id, code: string, shippingDefault: int, i: nat)
    requires OneOpenOrderPerUser(orders) && i < |orders| && IsOpenOf(userId, orders[i])
    requires AddressExists(addresses, addressId)
    ensures var r := OpenOrderStep(orders, addresses, userId, addressId, newId, code, shippingDefault);
            r == Opened(orders[i := orders[i].(shippingAddressId := addressId)], i)
  {
    var f := OpenOrderIndex(orders, userId);
    assert f.Some?;
    assert IsOpenOf(userId, orders[f.value]);
  }

  /** The method form of the step, on the database. */
  method CreateOrderIfNotExists(db: Database, userId: Id, addressId: Id, newId: Id, code: string, shippingDefault: int)
    returns (r: OpenStep)
    modifies db`orders
    ensures r == OpenOrderStep(old(db.orders), db.addresses, userId, addressId, newId, code, shippingDefault)
    ensures r.Opened? ==> db.orders == r.orders
    ensures r.AddressMissing? ==> db.orders == old(db.orders)
  {
    r := OpenOrderStep(db.orders, db.addresses, userId, addressId, newId, code, shippingDefault);
    if r.Opened? {
      db.orders := r.orders;
    }
  }

  /** recalculateOrderTotals on the database. */
  method RecalculateOrderTotals(db: Database, orderId: Id)
    modifies db`orders
    ensures db.orders == Recalculated(old(db.orders), db.orderItems, orderId)
  {
    match OrderIndex(db.orders, orderId)
    case None =>
    case Some(i) =>
      db.orders := db.orders[i := RecalculatedOrder(db.orders[i], db.orderItems)];
  }

  // ---------------------------------------------------------------------
  // The order item operations

  /** OrderItemValidation.CREATE: address_id, book_id and qty are required;
      a missing field is None. */
  datatype CreateItemRequest = CreateItemRequest(addressId: Option<string>, bookId: Option<string>, qty: Option<int>)

  /** OrderItemValidation.UPDATE: id, book_id, qty and address_id are required. */
  datatype UpdateItemRequest = UpdateItemRequest(id: Option<string>, bookId: Option<string>, qty: Option<int>,
                                                 addressId: Option<string>)

  predicate ValidCreate(q: CreateItemRequest) { q.addressId.Some? && q.bookId.Some? && q.qty.Some? }
  predicate ValidUpdate(q: UpdateItemRequest) { q.id.Some? && q.bookId.Some? && q.qty.Some? && q.addressId.Some? }

  /** The isUnique check of create: some item of the order, soft-deleted or
      not, already holds this book id. */
  predicate BookInOrder(items: seq<OrderItem>, orderId: Id, bookId: Id) {
    exists k :: 0 <= k < |items| && items[k].orderId == orderId && items[k].bookId == bookId
  }

  /** The row create inserts: the book's title and price as snapshots and
      their product with the quantity as the line total. */
  function NewItem(id: Id, orderId: Id, bookId: Id, book: Book, qty: int): (it: OrderItem)
    ensures it.lineTotal == it.priceSnapshot * it.qty && it.priceSnapshot == book.price && !it.deleted
  {
    OrderItem(id, orderId, bookId, book.title, book.price, qty, book.price * qty, false)
  }

  /** create: validation (422), the book (404), the user's open order (its
      write fails on an unknown address: 500), the duplicate check against
      the raw book id (409), then the insert (500 when the book id is a slug
      that is no book row), the recalculation of the order, and 201. The
      open-order step stays written even when a later check fails. */
  method CreateItem(db: Database, request: CreateItemRequest, userId: Id, newOrderId: Id, code: string,
                    shippingDefault: int, newItemId: Id) returns (r: Reply<OrderItem>)
    modifies db`orders, db`orderItems
    requires Valid(db.orders, db.orderItems)
    requires FreshKey(db.orders, OrderKey, newOrderId) && FreshKey(db.orderItems, ItemKey, newItemId)
    ensures Valid(db.orders, db.orderItems)
    ensures !ValidCreate(request) ==>
              r == ValidationFail() && db.orders == old(db.orders) && db.orderItems == old(db.orderItems)
    ensures ValidCreate(request) ==>
              var bookId := request.bookId.value;
              var book := Books.CheckBookMustExists(db.books, bookId);
              var step := OpenOrderStep(old(db.orders), db.addresses, userId, request.addressId.value,
                                        newOrderId, code, shippingDefault);
              if book.None? then
                r == Reply(false, NOT_FOUND, "Book Not Found", None)
                && db.orders == old(db.orders) && db.orderItems == old(db.orderItems)
              else if step.AddressMissing? then
                r == InternalError() && db.orders == old(db.orders) && db.orderItems == old(db.orderItems)
              else
                var orderId := step.orders[step.index].id;
                if BookInOrder(old(db.orderItems), orderId, bookId) then
                  r == Reply(false, CONFLICT, "Book already exists in this order", None)
                  && db.orders == step.orders && db.orderItems == old(db.orderItems)
                else if !Books.IdExists(db.books, bookId) then
                  r == InternalError() && db.orders == step.orders && db.orderItems == old(db.orderItems)
                else
                  var item := NewItem(newItemId, orderId, bookId, book.value, request.qty.value);
                  db.orderItems == old(db.orderItems) + [item]
                  && db.orders == Recalculated(step.orders, db.orderItems, orderId)
                  && r == Reply(true, CREATED, "Successfully Created Data", Some(item))
  {
    if !ValidCreate(request) {
      return ValidationFail();
    }
    var bookId := request.bookId.value;
    var book := Books.CheckBookMustExists(db.books, bookId);
    if book.None? {
      return Response.ResponseValue(false, NOT_FOUND, "Book Not Found");
    }
    OpenOrderStepKeepsValid(db.orders, db.orderItems, db.addresses, userId, request.addressId.value,
                            newOrderId, code, shippingDefault);
    var step := CreateOrderIfNotExists(db, userId, request.addressId.value, newOrderId, code, shippingDefault);
    if step.AddressMissing? {
      return InternalError();
    }
    var orderId := db.orders[step.index].id;
    if BookInOrder(db.orderItems, orderId, bookId) {
      return Response.ResponseValue(false, CONFLICT, "Book already exists in this order");
    }
    if !Books.IdExists(db.books, bookId) {
      return InternalError();
    }
    var item := NewItem(newItemId, orderId, bookId, book.value, request.qty.value);
    assert HasOrder(db.orders, orderId);
    InsertItemKeepsValid(db.orders, db.orderItems, item);
    db.orderItems := db.orderItems + [item];
    RecalculateOrderTotals(db, orderId);
    r := Response.ResponseValueWithData(true, CREATED, "Successfully Created Data", item);
  }

  /** The item update writes: the new book id and quantity, the snapshots of
      the new book when the book id is non-empty and differs from the stored
      one (`book`), the old snapshots otherwise, and the line total. */
  function UpdatedItem(cur: OrderItem, bookId: Id, qty: int, book: Option<Book>): (it: OrderItem)
    ensures it.id == cur.id && it.orderId == cur.orderId && it.deleted == cur.deleted
    ensures it.bookId == bookId && it.qty == qty && it.lineTotal == it.priceSnapshot * qty
    ensures book.None? ==> it.priceSnapshot == cur.priceSnapshot && it.titleSnapshot == cur.titleSnapshot
    ensures book.Some? ==> it.priceSnapshot == book.value.price && it.titleSnapshot == book.value.title
  {
    var price := if book.Some? then book.value.price else cur.priceSnapshot;
    var title := if book.Some? then book.value.title else cur.titleSnapshot;
    cur.(bookId := bookId, qty := qty, priceSnapshot := price, titleSnapshot := title, lineTotal := price * qty)
  }

  /** `updateReq.book_id && updateReq.book_id !== orderItem.book_id`. */
  predicate ChangesBook(bookId: string, cur: OrderItem) {
    bookId != "" && bookId != cur.bookId
  }

  /** update: validation (422); an item that is not the user's is read
      anyway (a TypeError: 500); a changed book id must name a book (else the
      same TypeError); the row is rewritten (500 when the book id is no book
      row), its order recalculated, and 200. */
  method UpdateItem(db: Database, request: UpdateItemRequest, userId: Id) returns (r: Reply<OrderItem>)
    modifies db`orders, db`orderItems
    requires Valid(db.orders, db.orderItems)
    ensures Valid(db.orders, db.orderItems)
    ensures !ValidUpdate(request) ==>
              r == ValidationFail() && db.orders == old(db.orders) && db.orderItems == old(db.orderItems)
    ensures ValidUpdate(request) ==>
              var k := CheckOrderItemMustExists(old(db.orders), old(db.orderItems), request.id.value, userId);
              var bookId := request.bookId.value;
              if k.None? then
                r == InternalError() && db.orders == old(db.orders) && db.orderItems == old(db.orderItems)
              else
                var cur := old(db.orderItems)[k.value];
                var book := Books.CheckBookMustExists(db.books, bookId);
                if (ChangesBook(bookId, cur) && book.None?) || !Books.IdExists(db.books, bookId) then
                  r == InternalError() && db.orders == old(db.orders) && db.orderItems == old(db.orderItems)
                else
                  var it := UpdatedItem(cur, bookId, request.qty.value, if ChangesBook(bookId, cur) then book else None);
                  db.orderItems == old(db.orderItems)[k.value := it]
                  && db.orders == Recalculated(old(db.orders), db.orderItems, cur.orderId)
                  && r == Reply(true, OK, "Successfully Updated Data", Some(it))
  {
    if !ValidUpdate(request) {
      return ValidationFail();
    }
    var k := CheckOrderItemMustExists(db.orders, db.orderItems, request.id.value, userId);
    if k.None? {
      return InternalError();
    }
    var cur := db.orderItems[k.value];
    var bookId := request.bookId.value;
    var snapshot: Option<Book> := None;
    if ChangesBook(bookId, cur) {
      snapshot := Books.CheckBookMustExists(db.books, bookId);
      if snapshot.None? {
        return InternalError();
      }
    }
    if !Books.IdExists(db.books, bookId) {
      return InternalError();
    }
    var it := UpdatedItem(cur, bookId, request.qty.value, snapshot);
    ReplaceItemKeepsValid(db.orders, db.orderItems, k.value, it);
    db.orderItems := db.orderItems[k.value := it];
    RecalculateOrderTotals(db, cur.orderId);
    r := Response.ResponseValueWithData(true, OK, "Successfully Updated Data", it);
  }

  /** remove: 404 unless the item is the user's; then it is soft-deleted and
      the order totals are left as they are. */
  method RemoveItem(db: Database, id: Id, userId: Id) returns (r: Reply<OrderItem>)
    modifies db`orderItems
    requires Valid(db.orders, db.orderItems)
    ensures Valid(db.orders, db.orderItems)
    ensures var k := CheckOrderItemMustExists(db.orders, old(db.orderItems), id, userId);
            if k.None? then r == Reply(false, NOT_FOUND, "Order Not Found", None) && db.orderItems == old(db.orderItems)
            else r == Reply(true, OK, "Successfully Deleted Data", None)
                 && db.orderItems == old(db.orderItems)[k.value := old(db.orderItems)[k.value].(deleted := true)]
  {
    var k := CheckOrderItemMustExists(db.orders, db.orderItems, id, userId);
    if k.None? {
      return Response.ResponseValue(false, NOT_FOUND, "Order Not Found");
    }
    SoftDeleteKeepsValid(db.orders, db.orderItems, k.value);
    db.orderItems := db.orderItems[k.value := db.orderItems[k.value].(deleted := true)];
    r := Response.ResponseValue(true, OK, "Successfully Deleted Data");
  }

  /** get: the user's item, soft-deleted or not, with a 201; 404 otherwise. */
  function Get(orders: seq<Order>, items: seq<OrderItem>, id: Id, userId: Id): (r: Reply<OrderItem>)
    ensures r.status <==> exists k :: 0 <= k < |items| && items[k].id == id && OwnedBy(orders, userId, items[k])
    ensures r.status ==> r.statusCode == CREATED && r.message == "Successfully Get Data"
                         && r.data.Some? && r.data.value in items && r.data.value.id == id
                         && OwnedBy(orders, userId, r.data.value)
    ensures !r.status ==> r == Reply(false, NOT_FOUND, "Order Not Found", None)
  {
    match CheckOrderItemMustExists(orders, items, id, userId)
    case None => Response.ResponseValue(false, NOT_FOUND, "Order Not Found")
    case Some(k) => Response.ResponseValueWithData(true, CREATED, "Successfully Get Data", items[k])
  }

  /** With distinct item ids, an item is visible to at most one user. */
  lemma GetOnlyForOwner(orders: seq<Order>, items: seq<OrderItem>, id: Id, u1: Id, u2: Id)
    requires KeysDistinct(items, ItemKey)
    requires Get(orders, items, id, u1).status && Get(orders, items, id, u2).status
    ensures u1 == u2
  {
    var k1 :| 0 <= k1 < |items| && items[k1].id == id && OwnedBy(orders, u1, items[k1]);
    var k2 :| 0 <= k2 < |items| && items[k2].id == id && OwnedBy(orders, u2, items[k2]);
    assert ItemKey(items[k1]) == ItemKey(items[k2]);
    assert k1 == k2;
  }

  /** OrderItemValidation.SEARCH: page and size at least 1; status, when
      given, one of the order statuses; orderBy, when given, asc or desc. */
  datatype SearchRequest = SearchRequest(page: Option<int>, size: Option<int>, status: Option<string>,
                                         orderBy: Option<string>)

  predicate IsStatusName(s: string) {
    s == "CREATED" || s == "PAID" || s == "FAILED" || s == "SHIPPED" || s == "DELIVERED" || s == "CANCELLED"
  }

  predicate ValidSearch(q: SearchRequest) {
    && q.page.Some? && q.page.value >= 1
    && q.size.Some? && q.size.value >= 1
    && (q.status.None? || IsStatusName(q.status.value))
    && (q.orderBy.None? || q.orderBy.value == "asc" || q.orderBy.value == "desc")
  }

  /** The where clause of search: items of the user's orders, not deleted. */
  predicate Listed(orders: seq<Order>, userId: Id, it: OrderItem) {
    OwnedBy(orders, userId, it) && !it.deleted
  }

  function ListedItems(orders: seq<Order>, items: seq<OrderItem>, userId: Id): seq<OrderItem> {
    Filter(items, (it: OrderItem) => Listed(orders, userId, it))
  }

  /** The listing in `orderBy created_at` order; rows are kept in insertion
      order, so ascending is table order. The status filter is validated but
      never applied. */
  function Ordered(orders: seq<Order>, items: seq<OrderItem>, userId: Id, q: SearchRequest): seq<OrderItem> {
    var listed := ListedItems(orders, items, userId);
    if q.orderBy == Some("desc") then Reversed(listed) else listed
  }

  /** search: a failed validation lands in the catch (500); otherwise one
      page of the user's live items, and the count under the same where. */
  function Search(orders: seq<Order>, items: seq<OrderItem>, userId: Id, q: SearchRequest): (r: Reply<PageData<OrderItem>>)
    ensures !ValidSearch(q) ==> r == InternalError()
    ensures ValidSearch(q) ==>
              r.status && r.statusCode == OK && r.message == "Successfully Get Order Items" && r.data.Some?
              && r.data.value.totalItems == |ListedItems(orders, items, userId)|
              && r.data.value.perPage == q.size.value
              && |r.data.value.items| <= q.size.value
              && forall it :: it in r.data.value.items ==> it in items && Listed(orders, userId, it)
  {
    if !ValidSearch(q) then InternalError()
    else
      var perPage := q.size.value;
      var page := q.page.value;
      var rows := Page(Ordered(orders, items, userId, q), (page - 1) * perPage, perPage);
      assert forall it :: it in rows ==> it in ListedItems(orders, items, userId);
      Response.ResponseValueWithPaginate(true, OK, "Successfully Get Order Items", rows, Some(page), Some(perPage),
                                         |ListedItems(orders, items, userId)|)
  }

  /** The first page starts with the oldest listed item, or with the newest
      one when ordered descending. */
  lemma SearchFirstPageOrder(orders: seq<Order>, items: seq<OrderItem>, userId: Id, q: SearchRequest)
    requires ValidSearch(q) && q.page == Some(1)
    requires ListedItems(orders, items, userId) != []
    ensures var listed := ListedItems(orders, items, userId);
            var shown := Search(orders, items, userId, q).data.value.items;
            shown != []
            && (q.orderBy == Some("desc") ==> shown[0] == listed[|listed| - 1])
            && (q.orderBy != Some("desc") ==> shown[0] == listed[0])
  {
  }
}
