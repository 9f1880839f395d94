/** The Prisma tables the services read and write, as one in-memory database.
    Each table is a sequence of rows in insertion order, so `findFirst` is the
    first matching row. Money is in integer cents, dates are integer
    timestamps, and a soft delete is the `deleted` flag (`deleted_at` set). */
module Store {
  import opened Common

  type Id = string

  predicate IsHexDigit(c: char) { '0' <= c <= '9' || 'a' <= c <= 'f' || 'A' <= c <= 'F' }

  /** src/utils/is-uuid is not part of this model; it is taken to accept the
      canonical 8-4-4-4-12 hexadecimal form. */
  predicate IsUuid(s: string) {
    |s| == 36 && forall i :: 0 <= i < 36 ==> if i == 8 || i == 13 || i == 18 || i == 23 then s[i] == '-' else IsHexDigit(s[i])
  }

  /** A slug produced by the slug helper is never a UUID when it has no
      separator at position 8. */
  lemma NotUuidWithoutDash(s: string)
    requires |s| > 8 && s[8] != '-'
    ensures !IsUuid(s)
  {
  }

  datatype Book = Book(id: Id, slug: string, isbn: string, title: string, description: Option<string>,
                       price: int, pages: int, language: string, publisher: string, publishedAt: int,
                       stockCached: int, deleted: bool)

  datatype Author = Author(id: Id, slug: string)
  datatype Category = Category(id: Id, slug: string, deleted: bool)
  datatype User = User(id: Id, name: string)
  datatype Address = Address(id: Id, userId: Id)

  datatype OrderStatus = Created | Paid | Failed | Shipped | Delivered | Cancelled

  datatype Order = Order(id: Id, code: string, userId: Id, shippingAddressId: Id, status: OrderStatus,
                         subtotal: int, shippingCost: int, discountTotal: int, grandTotal: int)

  datatype OrderItem = OrderItem(id: Id, orderId: Id, bookId: Id, titleSnapshot: string, priceSnapshot: int,
                                 qty: int, lineTotal: int, deleted: bool)

  datatype Cart = Cart(id: Id, userId: Id, isActive: bool)
  datatype CartItem = CartItem(id: Id, cartId: Id, bookId: Id, qty: int, priceSnapshot: int, note: Option<string>)

  datatype Voucher = Voucher(id: Id, code: string, discount: int, upperLimit: int, description: string,
                             allUser: bool, startDate: int, endDate: int, deleted: bool)
  datatype UserVoucher = UserVoucher(id: Id, userId: Id, voucherId: Id, total: int, deleted: bool)

  datatype BookAuthor = BookAuthor(id: Id, bookId: Id, authorId: Id, ord: Option<int>)
  datatype BookCategory = BookCategory(id: Id, bookId: Id, categoryId: Id)

  /** The database behind PrismaService. */
  class Database {
    var books: seq<Book>
    var authors: seq<Author>
    var categories: seq<Category>
    var users: seq<User>
    var addresses: seq<Address>
    var orders: seq<Order>
    var orderItems: seq<OrderItem>
    var carts: seq<Cart>
    var cartItems: seq<CartItem>
    var vouchers: seq<Voucher>
    var userVouchers: seq<UserVoucher>
    var bookAuthors: seq<BookAuthor>
    var bookCategories: seq<BookCategory>

    constructor ()
      ensures books == [] && authors == [] && categories == [] && users == [] && addresses == []
      ensures orders == [] && orderItems == [] && carts == [] && cartItems == []
      ensures vouchers == [] && userVouchers == [] && bookAuthors == [] && bookCategories == []
    {
      books, authors, categories, users, addresses := [], [], [], [], [];
      orders, orderItems, carts, cartItems := [], [], [], [];
      vouchers, userVouchers, bookAuthors, bookCategories := [], [], [], [];
    }
  }

  /** `findFirst`: the position of the first row `p` accepts. */
  function FindFirst<T>(rows: seq<T>, p: T -> bool): (r: Option<nat>)
    ensures r.Some? ==> r.value < |rows| && p(rows[r.value])
    ensures r.Some? ==> forall j :: 0 <= j < r.value ==> !p(rows[j])
    ensures r.None? <==> forall j :: 0 <= j < |rows| ==> !p(rows[j])
    decreases |rows|
  {
    if rows == [] then None
    else if p(rows[0]) then Some(0)
    else match FindFirst(rows[1..], p)
      case None => None
      case Some(k) => Some(k + 1)
  }

  /** The rows `p` accepts, in table order (`findMany` with a where clause). */
  function Filter<T(!new)>(rows: seq<T>, p: T -> bool): (r: seq<T>)
    ensures |r| <= |rows|
    ensures forall x :: x in r <==> x in rows && p(x)
  {
    if rows == [] then [] else (if p(rows[0]) then [rows[0]] else []) + Filter(rows[1..], p)
  }

  /** `skip` then `take`. */
  function Page<T(!new)>(rows: seq<T>, skip: int, take: int): (r: seq<T>)
    requires skip >= 0 && take >= 0
    ensures |r| <= take
    ensures forall x :: x in r ==> x in rows
  {
    if skip >= |rows| then [] else if skip + take >= |rows| then rows[skip..] else rows[skip..skip + take]
  }

  /** Rows in the opposite order: an `orderBy ... 'desc'` on the insertion
      time of rows kept in insertion order. */
  function Reversed<T>(rows: seq<T>): (r: seq<T>)
    ensures |r| == |rows|
    ensures forall i :: 0 <= i < |rows| ==> r[i] == rows[|rows| - 1 - i]
  {
    if rows == [] then [] else [rows[|rows| - 1]] + Reversed(rows[..|rows| - 1])
  }

  /** No two rows share a key. */
  predicate KeysDistinct<T>(rows: seq<T>, key: T -> Id) {
    forall i, j :: 0 <= i < j < |rows| ==> key(rows[i]) != key(rows[j])
  }

  /** An id that no row uses yet, as the database's id generator provides. */
  predicate FreshKey<T>(rows: seq<T>, key: T -> Id, id: Id) {
    forall i :: 0 <= i < |rows| ==> key(rows[i]) != id
  }

  /** Appending a row under a fresh key keeps the keys distinct. */
  lemma AppendFreshKey<T>(rows: seq<T>, key: T -> Id, row: T)
    requires KeysDistinct(rows, key) && FreshKey(rows, key, key(row))
    ensures KeysDistinct(rows + [row], key)
  {
  }

  /** Changing a row but not its key keeps the keys distinct. */
  lemma ReplaceSameKey<T>(rows: seq<T>, key: T -> Id, i: nat, row: T)
    requires KeysDistinct(rows, key) && i < |rows| && key(row) == key(rows[i])
    ensures KeysDistinct(rows[i := row], key)
  {
  }

  /** With distinct keys, the first row with a key is the only one. */
  lemma FirstKeyIsOnly<T>(rows: seq<T>, key: T -> Id, id: Id, i: nat)
    requires KeysDistinct(rows, key) && i < |rows| && key(rows[i]) == id
    ensures FindFirst(rows, (x: T) => key(x) == id) == Some(i)
  {
  }

  /** Removing the row at `i` (a hard delete). */
  function RemoveAt<T(!new)>(rows: seq<T>, i: nat): (r: seq<T>)
    requires i < |rows|
    ensures |r| == |rows| - 1
    ensures forall x :: x in r ==> x in rows
  {
    rows[..i] + rows[i + 1..]
  }

  lemma RemoveAtKeepsDistinct<T(!new)>(rows: seq<T>, key: T -> Id, i: nat)
    requires KeysDistinct(rows, key) && i < |rows|
    ensures KeysDistinct(RemoveAt(rows, i), key)
    ensures FreshKey(RemoveAt(rows, i), key, key(rows[i]))
  {
    var r := RemoveAt(rows, i);
    assert forall j :: 0 <= j < |r| ==> r[j] == if j < i then rows[j] else rows[j + 1];
  }
}
