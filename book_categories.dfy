/** src/book-category/book-category.service.ts: the links between books and
    categories. As for book authors there is no try/catch: a zod failure
    reaches the global filter and a failed `connect` is an unhandled 500. */
module BookCategories {
  import opened Common
  import opened Store
  import Books
  import Response

  function LinkKey(l: BookCategory): Id { l.id }

  predicate Valid(links: seq<BookCategory>) {
    KeysDistinct(links, LinkKey)
  }

  /** checkCategoryMustExists (src/category/category.service.ts): by id for
      a UUID, by slug otherwise, and never a soft-deleted category. */
  predicate CategoryMatches(param: string, c: Category) {
    !c.deleted && (if IsUuid(param) then c.id == param else c.slug == param)
  }

  predicate CategoryFound(categories: seq<Category>, param: string) {
    exists c :: c in categories && CategoryMatches(param, c)
  }

  predicate CategoryIdExists(categories: seq<Category>, id: Id) {
    exists c :: c in categories && c.id == id
  }

  /** checkBookCategoryMustExists: the link with the id. */
  function IndexOfLink(links: seq<BookCategory>, id: Id): (r: Option<nat>)
    ensures r.Some? ==> r.value < |links| && links[r.value].id == id
    ensures r.None? <==> forall k :: 0 <= k < |links| ==> links[k].id != id
  {
    FindFirst(links, (l: BookCategory) => l.id == id)
  }

  /** The isUnique check of create: no link joins this book to this category. */
  predicate PairFree(links: seq<BookCategory>, bookId: Id, categoryId: Id) {
    forall l :: l in links ==> !(l.bookId == bookId && l.categoryId == categoryId)
  }

  predicate PairsDistinct(links: seq<BookCategory>) {
    forall i, j :: 0 <= i < j < |links| ==>
      !(links[i].bookId == links[j].bookId && links[i].categoryId == links[j].categoryId)
  }

  /** BookCategoryValidation.CREATE / UPDATE: book_id and category_id are
      required (the optional ord of CREATE is never stored). */
  datatype LinkRequest = LinkRequest(bookId: Option<string>, categoryId: Option<string>)

  predicate ValidRequest(q: LinkRequest) { q.bookId.Some? && q.categoryId.Some? }

  /** The outcome of the lookups create and update share, in their order:
      the book (404), then the category (404). */
  function LookupFailure(books: seq<Book>, categories: seq<Category>, bookId: string, categoryId: string)
    : (r: Option<Reply<BookCategory>>)
    ensures r.None? <==> Books.CheckBookMustExists(books, bookId).Some? && CategoryFound(categories, categoryId)
    ensures Books.CheckBookMustExists(books, bookId).None? ==> r == Some(Reply(false, NOT_FOUND, "Book Not Found", None))
    ensures Books.CheckBookMustExists(books, bookId).Some? && !CategoryFound(categories, categoryId) ==>
              r == Some(Reply(false, NOT_FOUND, "Category Not Found", None))
  {
    if Books.CheckBookMustExists(books, bookId).None? then Some(Response.ResponseValue(false, NOT_FOUND, "Book Not Found"))
    else if !CategoryFound(categories, categoryId) then Some(Response.ResponseValue(false, NOT_FOUND, "Category Not Found"))
    else None
  }

  /** create: validation (the filter's 422), book and category (404), the
      pair (409), the insert (500 when either id names no row), and 201. */
  method Create(db: Database, request: LinkRequest, newId: Id) returns (r: Reply<BookCategory>)
    modifies db`bookCategories
    requires Valid(db.bookCategories) && FreshKey(db.bookCategories, LinkKey, newId)
    ensures Valid(db.bookCategories)
    ensures old(PairsDistinct(db.bookCategories)) ==> PairsDistinct(db.bookCategories)
    ensures !ValidRequest(request) ==> r == FilteredValidationFail() && db.bookCategories == old(db.bookCategories)
    ensures ValidRequest(request) ==>
              var bookId, categoryId := request.bookId.value, request.categoryId.value;
              var failure := LookupFailure(db.books, db.categories, bookId, categoryId);
              if failure.Some? then r == failure.value && db.bookCategories == old(db.bookCategories)
              else if !PairFree(old(db.bookCategories), bookId, categoryId) then
                r == Reply(false, CONFLICT, "Book Category Already in Database", None)
                && db.bookCategories == old(db.bookCategories)
              else if !Books.IdExists(db.books, bookId) || !CategoryIdExists(db.categories, categoryId) then
                r == UnhandledError() && db.bookCategories == old(db.bookCategories)
              else
                var l := BookCategory(newId, bookId, categoryId);
                db.bookCategories == old(db.bookCategories) + [l]
                && r == Reply(true, CREATED, "Successfully Created Data", Some(l))
  {
    if !ValidRequest(request) {
      return FilteredValidationFail();
    }
    var bookId, categoryId := request.bookId.value, request.categoryId.value;
    var failure := LookupFailure(db.books, db.categories, bookId, categoryId);
    if failure.Some? {
      return failure.value;
    }
    if !PairFree(db.bookCategories, bookId, categoryId) {
      return Response.ResponseValue(false, CONFLICT, "Book Category Already in Database");
    }
    if !Books.IdExists(db.books, bookId) || !CategoryIdExists(db.categories, categoryId) {
      return UnhandledError();
    }
    var l := BookCategory(newId, bookId, categoryId);
    AppendFreshKey(db.bookCategories, LinkKey, l);
    assert forall i :: 0 <= i < |db.bookCategories| ==> db.bookCategories[i] in db.bookCategories;
    db.bookCategories := db.bookCategories + [l];
    r := Response.ResponseValueWithData(true, CREATED, "Successfully Created Data", l);
  }

  /** update: validation first (the filter's 422), then the link (404), the
      book and the category (404), then both ids are rewritten (500 when
      either names no row), and 200. No pair check is made. */
  method Update(db: Database, id: Option<Id>, request: LinkRequest) returns (r: Reply<BookCategory>)
    modifies db`bookCategories
    requires Valid(db.bookCategories)
    ensures Valid(db.bookCategories)
    ensures !(ValidRequest(request) && id.Some?) ==>
              r == FilteredValidationFail() && db.bookCategories == old(db.bookCategories)
    ensures ValidRequest(request) && id.Some? ==>
              var bookId, categoryId := request.bookId.value, request.categoryId.value;
              var k := IndexOfLink(old(db.bookCategories), id.value);
              var failure := LookupFailure(db.books, db.categories, bookId, categoryId);
              if k.None? then
                r == Reply(false, NOT_FOUND, "Book Category Not Found", None) && db.bookCategories == old(db.bookCategories)
              else if failure.Some? then r == failure.value && db.bookCategories == old(db.bookCategories)
              else if !Books.IdExists(db.books, bookId) || !CategoryIdExists(db.categories, categoryId) then
                r == UnhandledError() && db.bookCategories == old(db.bookCategories)
              else
                var l := BookCategory(id.value, bookId, categoryId);
                db.bookCategories == old(db.bookCategories)[k.value := l]
                && r == Reply(true, OK, "Successfully Updated Data", Some(l))
  {
    if !(ValidRequest(request) && id.Some?) {
      return FilteredValidationFail();
    }
    var bookId, categoryId := request.bookId.value, request.categoryId.value;
    var k := IndexOfLink(db.bookCategories, id.value);
    if k.None? {
      return Response.ResponseValue(false, NOT_FOUND, "Book Category Not Found");
    }
    var failure := LookupFailure(db.books, db.categories, bookId, categoryId);
    if failure.Some? {
      return failure.value;
    }
    if !Books.IdExists(db.books, bookId) || !CategoryIdExists(db.categories, categoryId) {
      return UnhandledError();
    }
    var l := BookCategory(id.value, bookId, categoryId);
    ReplaceSameKey(db.bookCategories, LinkKey, k.value, l);
    db.bookCategories := db.bookCategories[k.value := l];
    r := Response.ResponseValueWithData(true, OK, "Successfully Updated Data", l);
  }

  /** update writes `links[k := ...]` with no pair check: rewriting link k to
      the pair of any other link j repeats that pair, whatever the table held. */
  lemma UpdateCanRepeatPair(links: seq<BookCategory>, k: nat, j: nat)
    requires k < |links| && j < |links| && k != j
    ensures !PairsDistinct(links[k := BookCategory(links[k].id, links[j].bookId, links[j].categoryId)])
  {
    var after := links[k := BookCategory(links[k].id, links[j].bookId, links[j].categoryId)];
    var lo, hi := if j < k then j else k, if j < k then k else j;
    assert after[lo].bookId == after[hi].bookId && after[lo].categoryId == after[hi].categoryId;
  }

  /** remove: 404 for a missing link, otherwise the row is deleted outright. */
  method Remove(db: Database, id: Id) returns (r: Reply<BookCategory>)
    modifies db`bookCategories
    requires Valid(db.bookCategories)
    ensures Valid(db.bookCategories)
    ensures var k := IndexOfLink(old(db.bookCategories), id);
            if k.None? then
              r == Reply(false, NOT_FOUND, "Book Category Not Found", None) && db.bookCategories == old(db.bookCategories)
            else
              db.bookCategories == RemoveAt(old(db.bookCategories), k.value) && IndexOfLink(db.bookCategories, id).None?
              && r == Reply(true, OK, "Successfully Deleted Data", None)
  {
    var k := IndexOfLink(db.bookCategories, id);
    if k.None? {
      return Response.ResponseValue(false, NOT_FOUND, "Book Category Not Found");
    }
    RemoveAtKeepsDistinct(db.bookCategories, LinkKey, k.value);
    db.bookCategories := RemoveAt(db.bookCategories, k.value);
    r := Response.ResponseValue(true, OK, "Successfully Deleted Data");
  }
}
