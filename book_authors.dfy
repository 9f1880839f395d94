/** src/book-author/book-author.service.ts: the links between books and
    their authors. The service has no try/catch: a zod failure reaches the
    global filter, the author lookup throws its own 404, and a failed
    `connect` is an unhandled 500. */
module BookAuthors {
  import opened Common
  import opened Store
  import Books
  import Response

  function LinkKey(l: BookAuthor): Id { l.id }

  predicate Valid(links: seq<BookAuthor>) {
    KeysDistinct(links, LinkKey)
  }

  /** checkAuthorMustExists (src/author/author.service.ts): by id for a UUID,
      by slug otherwise; there is no deleted filter. */
  predicate AuthorMatches(param: string, a: Author) {
    if IsUuid(param) then a.id == param else a.slug == param
  }

  predicate AuthorFound(authors: seq<Author>, param: string) {
    exists a :: a in authors && AuthorMatches(param, a)
  }

  predicate AuthorIdExists(authors: seq<Author>, id: Id) {
    exists a :: a in authors && a.id == id
  }

  /** checkBookAuthorMustExists: the link with the id. */
  function IndexOfLink(links: seq<BookAuthor>, id: Id): (r: Option<nat>)
    ensures r.Some? ==> r.value < |links| && links[r.value].id == id
    ensures r.None? <==> forall k :: 0 <= k < |links| ==> links[k].id != id
  {
    FindFirst(links, (l: BookAuthor) => l.id == id)
  }

  /** The isUnique check of create: no link joins this book to this author. */
  predicate PairFree(links: seq<BookAuthor>, bookId: Id, authorId: Id) {
    forall l :: l in links ==> !(l.bookId == bookId && l.authorId == authorId)
  }

  predicate PairsDistinct(links: seq<BookAuthor>) {
    forall i, j :: 0 <= i < j < |links| ==>
      !(links[i].bookId == links[j].bookId && links[i].authorId == links[j].authorId)
  }

  /** BookAuthorValidation.CREATE / UPDATE: book_id and author_id required,
      ord optional, and id as well for an update. */
  datatype LinkRequest = LinkRequest(bookId: Option<string>, authorId: Option<string>, ord: Option<int>)

  predicate ValidRequest(q: LinkRequest) { q.bookId.Some? && q.authorId.Some? }

  /** create: validation (the filter's 422), the book (404), the author (the
      thrown 404), the pair (409), then the insert (500 when either id names
      no row) and 201. */
  method Create(db: Database, request: LinkRequest, newId: Id) returns (r: Reply<BookAuthor>)
    modifies db`bookAuthors
    requires Valid(db.bookAuthors) && FreshKey(db.bookAuthors, LinkKey, newId)
    ensures Valid(db.bookAuthors)
    ensures old(PairsDistinct(db.bookAuthors)) ==> PairsDistinct(db.bookAuthors)
    ensures !ValidRequest(request) ==> r == FilteredValidationFail() && db.bookAuthors == old(db.bookAuthors)
    ensures ValidRequest(request) ==>
              var bookId, authorId := request.bookId.value, request.authorId.value;
              if Books.CheckBookMustExists(db.books, bookId).None? then
                r == Reply(false, NOT_FOUND, "Book Not Found", None) && db.bookAuthors == old(db.bookAuthors)
              else if !AuthorFound(db.authors, authorId) then
                r == HttpError(NOT_FOUND, "Author is not found") && db.bookAuthors == old(db.bookAuthors)
              else if !PairFree(old(db.bookAuthors), bookId, authorId) then
                r == Reply(false, CONFLICT, "Book Author Already in Database", None) && db.bookAuthors == old(db.bookAuthors)
              else if !Books.IdExists(db.books, bookId) || !AuthorIdExists(db.authors, authorId) then
                r == UnhandledError() && db.bookAuthors == old(db.bookAuthors)
              else
                var l := BookAuthor(newId, bookId, authorId, request.ord);
                db.bookAuthors == old(db.bookAuthors) + [l]
                && r == Reply(true, CREATED, "Successfully Created Data", Some(l))
  {
    if !ValidRequest(request) {
      return FilteredValidationFail();
    }
    var bookId, authorId := request.bookId.value, request.authorId.value;
    if Books.CheckBookMustExists(db.books, bookId).None? {
      return Response.ResponseValue(false, NOT_FOUND, "Book Not Found");
    }
    if !AuthorFound(db.authors, authorId) {
      return HttpError(NOT_FOUND, "Author is not found");
    }
    if !PairFree(db.bookAuthors, bookId, authorId) {
      return Response.ResponseValue(false, CONFLICT, "Book Author Already in Database");
    }
    if !Books.IdExists(db.books, bookId) || !AuthorIdExists(db.authors, authorId) {
      return UnhandledError();
    }
    var l := BookAuthor(newId, bookId, authorId, request.ord);
    AppendFreshKey(db.bookAuthors, LinkKey, l);
    assert forall i :: 0 <= i < |db.bookAuthors| ==> db.bookAuthors[i] in db.bookAuthors;
    db.bookAuthors := db.bookAuthors + [l];
    r := Response.ResponseValueWithData(true, CREATED, "Successfully Created Data", l);
  }

  /** update: a missing id makes the lookup itself fail (500); the link
      (404); validation (the filter's 422); then both ids and ord are
      rewritten (500 when either id names no row), and 200. No pair check is
      made and a book or author named by slug is not looked up. */
  method Update(db: Database, id: Option<Id>, request: LinkRequest) returns (r: Reply<BookAuthor>)
    modifies db`bookAuthors
    requires Valid(db.bookAuthors)
    ensures Valid(db.bookAuthors)
    ensures id.None? ==> r == UnhandledError() && db.bookAuthors == old(db.bookAuthors)
    ensures id.Some? ==>
              var k := IndexOfLink(old(db.bookAuthors), id.value);
              if k.None? then
                r == Reply(false, NOT_FOUND, "Book Author Not Found", None) && db.bookAuthors == old(db.bookAuthors)
              else if !ValidRequest(request) then
                r == FilteredValidationFail() && db.bookAuthors == old(db.bookAuthors)
              else if !Books.IdExists(db.books, request.bookId.value) || !AuthorIdExists(db.authors, request.authorId.value) then
                r == UnhandledError() && db.bookAuthors == old(db.bookAuthors)
              else
                var l := BookAuthor(id.value, request.bookId.value, request.authorId.value, request.ord);
                db.bookAuthors == old(db.bookAuthors)[k.value := l]
                && r == Reply(true, OK, "Successfully Updated Data", Some(l))
  {
    if id.None? {
      return UnhandledError();
    }
    var k := IndexOfLink(db.bookAuthors, id.value);
    if k.None? {
      return Response.ResponseValue(false, NOT_FOUND, "Book Author Not Found");
    }
    if !ValidRequest(request) {
      return FilteredValidationFail();
    }
    if !Books.IdExists(db.books, request.bookId.value) || !AuthorIdExists(db.authors, request.authorId.value) {
      return UnhandledError();
    }
    var l := BookAuthor(id.value, request.bookId.value, request.authorId.value, request.ord);
    ReplaceSameKey(db.bookAuthors, LinkKey, k.value, l);
    db.bookAuthors := db.bookAuthors[k.value := l];
    r := Response.ResponseValueWithData(true, OK, "Successfully Updated Data", l);
  }

  /** update writes `links[k := ...]` with no pair check: rewriting link k to
      the pair of any other link j repeats that pair, whatever the table held. */
  lemma UpdateCanRepeatPair(links: seq<BookAuthor>, k: nat, j: nat, ord: Option<int>)
    requires k < |links| && j < |links| && k != j
    ensures !PairsDistinct(links[k := BookAuthor(links[k].id, links[j].bookId, links[j].authorId, ord)])
  {
    var after := links[k := BookAuthor(links[k].id, links[j].bookId, links[j].authorId, ord)];
    var lo, hi := if j < k then j else k, if j < k then k else j;
    assert after[lo].bookId == after[hi].bookId && after[lo].authorId == after[hi].authorId;
  }

  /** remove: 404 for a missing link, otherwise the row is deleted outright. */
  method Remove(db: Database, id: Id) returns (r: Reply<BookAuthor>)
    modifies db`bookAuthors
    requires Valid(db.bookAuthors)
    ensures Valid(db.bookAuthors)
    ensures var k := IndexOfLink(old(db.bookAuthors), id);
            if k.None? then
              r == Reply(false, NOT_FOUND, "Book Author Not Found", None) && db.bookAuthors == old(db.bookAuthors)
            else
              db.bookAuthors == RemoveAt(old(db.bookAuthors), k.value) && IndexOfLink(db.bookAuthors, id).None?
              && r == Reply(true, OK, "Successfully Deleted Data", None)
  {
    var k := IndexOfLink(db.bookAuthors, id);
    if k.None? {
      return Response.ResponseValue(false, NOT_FOUND, "Book Author Not Found");
    }
    RemoveAtKeepsDistinct(db.bookAuthors, LinkKey, k.value);
    db.bookAuthors := RemoveAt(db.bookAuthors, k.value);
    r := Response.ResponseValue(true, OK, "Successfully Deleted Data");
  }
}
