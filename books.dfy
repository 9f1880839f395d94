/** src/book/book.service.ts: the catalog. Books are looked up by id or slug,
    soft-deleted, and listed; their slugs come from the slug helper. */
module Books {
  import opened Common
  import opened Store
  import Slug
  import Response

  /** The where clause of checkBookMustExists: by id when the parameter is a
      UUID, by slug otherwise, and never a soft-deleted book. */
  predicate Matches(param: string, b: Book) {
    !b.deleted && (if IsUuid(param) then b.id == param else b.slug == param)
  }

  /** checkBookMustExists: the first book the where clause accepts. */
  function CheckBookMustExists(books: seq<Book>, param: string): (r: Option<Book>)
    ensures r.Some? ==> r.value in books && Matches(param, r.value)
    ensures r.Some? ==> !r.value.deleted && (IsUuid(param) ==> r.value.id == param) && (!IsUuid(param) ==> r.value.slug == param)
    ensures r.None? <==> forall b :: b in books ==> !Matches(param, b)
  {
    match FindFirst(books, (b: Book) => Matches(param, b))
    case None => None
    case Some(i) => Some(books[i])
  }

  /** isUnique({title}): no book, deleted or not, has this title. */
  predicate TitleIsUnique(books: seq<Book>, title: string) {
    forall b :: b in books ==> b.title != title
  }

  /** Ids are distinct UUIDs, as the database generates them. */
  predicate Valid(books: seq<Book>) {
    KeysDistinct(books, (b: Book) => b.id) && forall b :: b in books ==> IsUuid(b.id)
  }

  /** The target of a foreign key or `connect` on a book id: a row of the
      books table, soft-deleted or not, has this id. */
  predicate IdExists(books: seq<Book>, id: Id) {
    exists b :: b in books && b.id == id
  }

  function IndexOfId(books: seq<Book>, id: Id): Option<nat> {
    FindFirst(books, (b: Book) => b.id == id)
  }

  /** The request fields of CreateBookRequest / UpdateBookRequest; a field the
      client left out is None. */
  datatype BookFields = BookFields(title: Option<string>, isbn: Option<string>, slug: Option<string>,
                                   description: Option<string>, price: Option<int>, pages: Option<int>,
                                   language: Option<string>, publisher: Option<string>,
                                   publishedAt: Option<int>, stockCached: Option<int>)

  /** BookValidation.CREATE / UPDATE (src/book/book.validation.ts). A price in
      cents always has two decimals; the format check then only rejects
      negative prices. */
  predicate ValidFields(f: BookFields) {
    && f.title.Some? && 5 <= |f.title.value| <= 200
    && f.isbn.Some? && 13 <= |f.isbn.value| <= 15
    && f.slug.Some? && 5 <= |f.slug.value| <= 220
    && (f.description.None? || 20 <= |f.description.value| <= 350)
    && f.price.Some? && f.price.value >= 0
    && f.pages.Some? && f.pages.value > 0
    && f.language.Some? && f.publisher.Some? && f.publishedAt.Some?
    && f.stockCached.Some? && f.stockCached.value > 0
  }

  function ToBook(id: Id, f: BookFields): Book
    requires ValidFields(f)
  {
    Book(id, f.slug.value, f.isbn.value, f.title.value, f.description, f.price.value, f.pages.value,
         f.language.value, f.publisher.value, f.publishedAt.value, f.stockCached.value, false)
  }

  /** The row update writes: `{ ...updateRequest }` sets every field the
      request carries, while an omitted description is no key at all and the
      stored one stays. The id and the deleted flag are not written. */
  function UpdatedBook(cur: Book, f: BookFields): (b: Book)
    requires ValidFields(f)
    ensures b.id == cur.id && b.deleted == cur.deleted
    ensures b.description == if f.description.Some? then f.description else cur.description
    ensures b.(description := f.description, deleted := false) == ToBook(cur.id, f)
  {
    var d := if f.description.Some? then f.description else cur.description;
    Book(cur.id, f.slug.value, f.isbn.value, f.title.value, d, f.price.value, f.pages.value,
         f.language.value, f.publisher.value, f.publishedAt.value, f.stockCached.value, cur.deleted)
  }

  /** The generated slug: `slugWithId(title || "", { uniqueStrategy: "time" })`,
      whose time-based id is `timeId`. */
  function GeneratedSlug(title: Option<string>, timeId: string): string {
    Slug.SlugWithId(title.GetOr(""), true, None, timeId)
  }

  /** create: the slug is always generated, then the request is validated
      (a failure reaches the validation filter), then a book with the same
      title, even a deleted one, is a conflict. */
  method Create(db: Database, request: BookFields, timeId: string, newId: Id) returns (r: Reply<Book>)
    modifies db`books
    requires Valid(db.books) && IsUuid(newId) && FreshKey(db.books, (b: Book) => b.id, newId)
    ensures Valid(db.books)
    ensures var f := request.(slug := Some(GeneratedSlug(request.title, timeId)));
            if !ValidFields(f) then r == FilteredValidationFail() && db.books == old(db.books)
            else if !TitleIsUnique(old(db.books), f.title.value) then
              r == Reply(false, CONFLICT, "Book Already in Database", None) && db.books == old(db.books)
            else r == Reply(true, CREATED, "Successfully Created Data", Some(ToBook(newId, f)))
                 && db.books == old(db.books) + [ToBook(newId, f)]
  {
    var f := request.(slug := Some(GeneratedSlug(request.title, timeId)));
    if !ValidFields(f) {
      return FilteredValidationFail();
    }
    if exists b :: b in db.books && b.title == f.title.value {
      return Response.ResponseValue(false, CONFLICT, "Book Already in Database");
    }
    var book := ToBook(newId, f);
    AppendFreshKey(db.books, (b: Book) => b.id, book);
    db.books := db.books + [book];
    r := Response.ResponseValueWithData(true, CREATED, "Successfully Created Data", book);
  }

  /** update: 404 unless the book is found; a slug different from the stored
      one is replaced by a generated one; then validation; then every field
      the request carries is written. */
  method Update(db: Database, id: string, request: BookFields, timeId: string) returns (r: Reply<Book>)
    modifies db`books
    requires Valid(db.books)
    ensures Valid(db.books)
    ensures var found := CheckBookMustExists(old(db.books), id);
            if found.None? then r == Reply(false, NOT_FOUND, "Book Not Found", None) && db.books == old(db.books)
            else
              var slug := if request.slug == Some(found.value.slug) then found.value.slug
                          else GeneratedSlug(request.title, timeId);
              var f := request.(slug := Some(slug));
              if !ValidFields(f) then r == FilteredValidationFail() && db.books == old(db.books)
              else
                var i := IndexOfId(old(db.books), found.value.id);
                i.Some? && db.books == old(db.books)[i.value := UpdatedBook(found.value, f)]
                && r == Reply(true, OK, "Successfully Updated Data", Some(UpdatedBook(found.value, f)))
  {
    var found := CheckBookMustExists(db.books, id);
    if found.None? {
      return Response.ResponseValue(false, NOT_FOUND, "Book Not Found");
    }
    var book := found.value;
    var slug := book.slug;
    if request.slug != Some(slug) {
      slug := GeneratedSlug(request.title, timeId);
    }
    var f := request.(slug := Some(slug));
    if !ValidFields(f) {
      return FilteredValidationFail();
    }
    var i := IndexOfId(db.books, book.id);
    var updated := UpdatedBook(book, f);
    ReplaceSameKey(db.books, (b: Book) => b.id, i.value, updated);
    db.books := db.books[i.value := updated];
    r := Response.ResponseValueWithData(true, OK, "Successfully Updated Data", updated);
  }

  /** remove: 404 unless the book is found, then `update where id: param`
      sets `deleted_at`. A book found by slug has no row whose id is the
      slug, so Prisma's record-not-found error, which nothing catches,
      becomes Nest's 500. */
  method Remove(db: Database, bookId: string) returns (r: Reply<Book>)
    modifies db`books
    requires Valid(db.books)
    ensures Valid(db.books)
    ensures var found := CheckBookMustExists(old(db.books), bookId);
            var i := IndexOfId(old(db.books), bookId);
            if found.None? then r == Reply(false, NOT_FOUND, "Book Not Found", None) && db.books == old(db.books)
            else if i.None? then r == UnhandledError() && db.books == old(db.books)
            else r == Reply(true, OK, "Successfully Deleted Data", None)
                 && db.books == old(db.books)[i.value := old(db.books)[i.value].(deleted := true)]
  {
    var found := CheckBookMustExists(db.books, bookId);
    if found.None? {
      return Response.ResponseValue(false, NOT_FOUND, "Book Not Found");
    }
    var i := IndexOfId(db.books, bookId);
    if i.None? {
      return UnhandledError();
    }
    var gone := db.books[i.value].(deleted := true);
    ReplaceSameKey(db.books, (b: Book) => b.id, i.value, gone);
    db.books := db.books[i.value := gone];
    r := Response.ResponseValue(true, OK, "Successfully Deleted Data");
  }

  /** A slug is never a book id when ids are UUIDs and the slug is not one, so
      removing a book by its slug always ends in the 500 above. */
  lemma RemoveBySlugFails(books: seq<Book>, param: string)
    requires Valid(books) && !IsUuid(param)
    ensures IndexOfId(books, param).None?
  {
  }

  /** After a soft delete the book is found neither by its id nor by its slug. */
  lemma {:induction false} SoftDeletedBookNotFound(books: seq<Book>, i: nat)
    requires Valid(books) && i < |books|
    ensures var after := books[i := books[i].(deleted := true)];
            CheckBookMustExists(after, books[i].id).None?
            && (CheckBookMustExists(after, books[i].slug).Some? ==> CheckBookMustExists(after, books[i].slug).value.id != books[i].id)
  {
    var after := books[i := books[i].(deleted := true)];
    forall b | b in after
      ensures !Matches(books[i].id, b)
    {
      var j :| 0 <= j < |after| && after[j] == b;
      if j != i {
        assert b == books[j];
      }
    }
    var r := CheckBookMustExists(after, books[i].slug);
    if r.Some? {
      var j :| 0 <= j < |after| && after[j] == r.value;
      assert j != i;
      assert r.value == books[j];
    }
  }

  /** The search request; page and size are required numbers of at least 1. */
  datatype SearchRequest = SearchRequest(title: Option<string>, page: Option<int>, size: Option<int>)

  predicate ValidSearch(q: SearchRequest) {
    (q.title.None? || |q.title.value| >= 2) && q.page.Some? && q.page.value >= 1 && q.size.Some? && q.size.value >= 1
  }

  predicate Visible(b: Book) { !b.deleted }

  /** search: with a title the where clause names `first_name`/`last_name`,
      which books do not have, and Prisma rejects the query; nothing catches
      the error, so Nest answers 500. Without
      one, the listed page holds only books that are not deleted, while the
      count has no `deleted_at` filter and counts every book. */
  function Search(books: seq<Book>, q: SearchRequest): (r: Reply<PageData<Book>>)
    ensures !ValidSearch(q) ==> r == FilteredValidationFail()
    ensures ValidSearch(q) && q.title.Some? ==> r == UnhandledError()
    ensures ValidSearch(q) && q.title.None? ==>
              r.status && r.statusCode == OK && r.data.Some?
              && r.data.value.totalItems == |books|
              && |r.data.value.items| <= q.size.value
              && forall b :: b in r.data.value.items ==> b in books && Visible(b)
  {
    if !ValidSearch(q) then FilteredValidationFail()
    else if q.title.Some? then UnhandledError()
    else
      var perPage := q.size.value;
      var page := q.page.value;
      var items := Page(Filter(books, Visible), (page - 1) * perPage, perPage);
      Response.ResponseValueWithPaginate(true, OK, "Successfully Get Data Books", items, Some(page), Some(perPage), |books|)
  }

  /** The reported total can exceed what any page can show: one deleted book
      is counted but never listed. */
  lemma CountIncludesDeletedBooks(b: Book)
    requires b.deleted
    ensures var r := Search([b], SearchRequest(None, Some(1), Some(10)));
            r.data.Some? && r.data.value.totalItems == 1 && r.data.value.items == []
  {
    assert Filter([b], Visible) == [];
  }
}
