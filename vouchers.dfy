/** src/voucher/voucher.service.ts: discount vouchers, their two lookups and
    who may see them. */
module Vouchers {
  import opened Common
  import opened Store
  import Response

  function VoucherKey(v: Voucher): Id { v.id }

  predicate Valid(vouchers: seq<Voucher>) {
    KeysDistinct(vouchers, VoucherKey)
  }

  /** Some user-voucher row, deleted or not, grants the voucher to the user
      (`userVoucher: { some: { user_id } }`). */
  predicate GrantedTo(userVouchers: seq<UserVoucher>, voucherId: Id, userId: Id) {
    exists uv :: uv in userVouchers && uv.voucherId == voucherId && uv.userId == userId
  }

  /** The plain where clause: the id, and not soft-deleted. */
  predicate PlainMatch(id: Id, v: Voucher) {
    v.id == id && !v.deleted
  }

  /** The detail where clause for a user: an all-user voucher with the id,
      deleted or not, or a live voucher with the id granted to the user. */
  predicate DetailMatch(userVouchers: seq<UserVoucher>, id: Id, userId: Id, v: Voucher) {
    (v.id == id && v.allUser) || (v.id == id && GrantedTo(userVouchers, v.id, userId) && !v.deleted)
  }

  /** A JavaScript string is truthy when it is not empty. */
  predicate Truthy(s: Option<string>) { s.Some? && s.value != "" }

  /** checkVoucherMustExists: the detail clause when a user id is given and
      the detail mode is asked for, the plain clause otherwise. */
  function CheckVoucherMustExists(vouchers: seq<Voucher>, userVouchers: seq<UserVoucher>, id: Id,
                                  userId: Option<Id>, detail: bool): (r: Option<Voucher>)
    ensures Truthy(userId) && detail ==>
              (r.Some? <==> exists v :: v in vouchers && DetailMatch(userVouchers, id, userId.value, v))
              && (r.Some? ==> r.value in vouchers && DetailMatch(userVouchers, id, userId.value, r.value))
    ensures !(Truthy(userId) && detail) ==>
              (r.Some? <==> exists v :: v in vouchers && PlainMatch(id, v))
              && (r.Some? ==> r.value in vouchers && PlainMatch(id, r.value))
  {
    var found := if Truthy(userId) && detail
                 then FindFirst(vouchers, (v: Voucher) => DetailMatch(userVouchers, id, userId.value, v))
                 else FindFirst(vouchers, (v: Voucher) => PlainMatch(id, v));
    match found
    case None => None
    case Some(i) => Some(vouchers[i])
  }

  /** The where clause of search: live vouchers, and with a user id only the
      all-user ones and those granted to that user. */
  predicate Listed(userVouchers: seq<UserVoucher>, userId: Option<Id>, v: Voucher) {
    !v.deleted && (Truthy(userId) ==> v.allUser || GrantedTo(userVouchers, v.id, userId.value))
  }

  /** The detail lookup and the user's listing agree on live vouchers. */
  lemma DetailAgreesWithListingWhenLive(userVouchers: seq<UserVoucher>, userId: Id, v: Voucher)
    requires userId != "" && !v.deleted
    ensures DetailMatch(userVouchers, v.id, userId, v) <==> Listed(userVouchers, Some(userId), v)
  {
  }

  /** They differ on a soft-deleted all-user voucher: the detail lookup still
      finds it, the listing and the plain lookup do not. */
  lemma DeletedAllUserVoucherStillFound(vouchers: seq<Voucher>, userVouchers: seq<UserVoucher>, i: nat, userId: Id)
    requires i < |vouchers| && vouchers[i].allUser && vouchers[i].deleted && userId != ""
    ensures CheckVoucherMustExists(vouchers, userVouchers, vouchers[i].id, Some(userId), true).Some?
    ensures !Listed(userVouchers, Some(userId), vouchers[i])
    ensures Valid(vouchers) ==> CheckVoucherMustExists(vouchers, userVouchers, vouchers[i].id, None, false).None?
  {
    assert vouchers[i] in vouchers;
    if Valid(vouchers) {
      forall v | v in vouchers
        ensures !PlainMatch(vouchers[i].id, v)
      {
        var j :| 0 <= j < |vouchers| && vouchers[j] == v;
        if j != i {
          assert VoucherKey(vouchers[j]) != VoucherKey(vouchers[i]);
        }
      }
    }
  }

  // ---------------------------------------------------------------------
  // create, update, remove

  /** The fields of CreateVoucherRequest / UpdateVoucherRequest; a missing
      field is None. Dates are instants. */
  datatype VoucherFields = VoucherFields(code: Option<string>, discount: Option<int>, upperLimit: Option<int>,
                                         description: Option<string>, startDate: Option<int>, endDate: Option<int>)

  /** VoucherValidation.CREATE / UPDATE: every field but upper_limit is
      required, the discount is at most 100 and the end is not before the
      start. */
  predicate ValidFields(f: VoucherFields) {
    && f.code.Some? && f.discount.Some? && f.discount.value <= 100
    && f.description.Some? && f.startDate.Some? && f.endDate.Some?
    && f.endDate.value >= f.startDate.value
  }

  /** `upper_limit ? upper_limit : 0`: on a number this is exactly `?? 0`,
      since the only falsy numbers are 0 itself and the missing value. */
  function StoredUpperLimit(x: Option<int>): (r: int)
    ensures r == x.GetOr(0)
  {
    if x.None? || x.value == 0 then 0 else x.value
  }

  /** The row create and update write from the request. */
  function Row(id: Id, f: VoucherFields, allUser: bool): (v: Voucher)
    requires ValidFields(f)
    ensures v.id == id && v.code == f.code.value && v.discount == f.discount.value <= 100
    ensures v.upperLimit == f.upperLimit.GetOr(0) && v.description == f.description.value
    ensures v.startDate == f.startDate.value <= v.endDate == f.endDate.value
    ensures v.allUser == allUser && !v.deleted
  {
    Voucher(id, f.code.value, f.discount.value, StoredUpperLimit(f.upperLimit), f.description.value, allUser,
            f.startDate.value, f.endDate.value, false)
  }

  /** The isUnique check of create: no live voucher has this code. */
  predicate CodeFree(vouchers: seq<Voucher>, code: string) {
    forall v :: v in vouchers && !v.deleted ==> v.code != code
  }

  /** No two live vouchers share a code. */
  predicate LiveCodesDistinct(vouchers: seq<Voucher>) {
    forall i, j :: 0 <= i < j < |vouchers| && !vouchers[i].deleted && !vouchers[j].deleted ==>
      vouchers[i].code != vouchers[j].code
  }

  /** create: validation (422), the live-code check (409), then the insert
      with the schema's default `all_user`, and 201. */
  method Create(db: Database, request: VoucherFields, newId: Id, allUserDefault: bool) returns (r: Reply<Voucher>)
    modifies db`vouchers
    requires Valid(db.vouchers) && FreshKey(db.vouchers, VoucherKey, newId)
    ensures Valid(db.vouchers)
    ensures old(LiveCodesDistinct(db.vouchers)) ==> LiveCodesDistinct(db.vouchers)
    ensures !ValidFields(request) ==> r == ValidationFail() && db.vouchers == old(db.vouchers)
    ensures ValidFields(request) && !CodeFree(old(db.vouchers), request.code.value) ==>
              r == Reply(false, CONFLICT, "Voucher Discount Already in Database", None) && db.vouchers == old(db.vouchers)
    ensures ValidFields(request) && CodeFree(old(db.vouchers), request.code.value) ==>
              var v := Row(newId, request, allUserDefault);
              db.vouchers == old(db.vouchers) + [v] && r == Reply(true, CREATED, "Successfully Created Data", Some(v))
  {
    if !ValidFields(request) {
      return ValidationFail();
    }
    if !CodeFree(db.vouchers, request.code.value) {
      return Response.ResponseValue(false, CONFLICT, "Voucher Discount Already in Database");
    }
    var v := Row(newId, request, allUserDefault);
    AppendFreshKey(db.vouchers, VoucherKey, v);
    assert forall i :: 0 <= i < |db.vouchers| && !db.vouchers[i].deleted ==> db.vouchers[i] in db.vouchers;
    db.vouchers := db.vouchers + [v];
    r := Response.ResponseValueWithData(true, CREATED, "Successfully Created Data", v);
  }

  /** The position of the row a `where: { id }` write reaches. */
  function IndexOfId(vouchers: seq<Voucher>, id: Id): Option<nat> {
    FindFirst(vouchers, (v: Voucher) => v.id == id)
  }

  /** update: validation (422), the plain lookup (404: missing or deleted),
      then every field is rewritten, `all_user` kept, and the reply is a 201.
      The code is not checked against other vouchers. */
  method Update(db: Database, id: Option<Id>, request: VoucherFields) returns (r: Reply<Voucher>)
    modifies db`vouchers
    requires Valid(db.vouchers)
    ensures Valid(db.vouchers)
    ensures !(ValidFields(request) && id.Some?) ==> r == ValidationFail() && db.vouchers == old(db.vouchers)
    ensures ValidFields(request) && id.Some? ==>
              var found := CheckVoucherMustExists(old(db.vouchers), [], id.value, None, false);
              if found.None? then
                r == Reply(false, NOT_FOUND, "Voucher Not Found", None) && db.vouchers == old(db.vouchers)
              else
                var i := IndexOfId(old(db.vouchers), id.value);
                var v := Row(id.value, request, found.value.allUser);
                i.Some? && old(db.vouchers)[i.value] == found.value
                && db.vouchers == old(db.vouchers)[i.value := v]
                && r == Reply(true, CREATED, "Successfully Updated Data", Some(v))
  {
    if !(ValidFields(request) && id.Some?) {
      return ValidationFail();
    }
    var found := CheckVoucherMustExists(db.vouchers, [], id.value, None, false);
    if found.None? {
      return Response.ResponseValue(false, NOT_FOUND, "Voucher Not Found");
    }
    var i := IndexOfId(db.vouchers, id.value);
    var j :| 0 <= j < |db.vouchers| && db.vouchers[j] == found.value;
    assert i.value == j by {
      assert VoucherKey(db.vouchers[i.value]) == VoucherKey(db.vouchers[j]);
    }
    var v := Row(id.value, request, found.value.allUser);
    ReplaceSameKey(db.vouchers, VoucherKey, i.value, v);
    db.vouchers := db.vouchers[i.value := v];
    r := Response.ResponseValueWithData(true, CREATED, "Successfully Updated Data", v);
  }

  /** update can give a live voucher the code of another live one. */
  lemma UpdateCanRepeatLiveCode(vouchers: seq<Voucher>, i: nat, j: nat, f: VoucherFields)
    requires i < |vouchers| && j < |vouchers| && i != j && !vouchers[j].deleted
    requires ValidFields(f) && f.code == Some(vouchers[j].code)
    ensures !LiveCodesDistinct(vouchers[i := Row(vouchers[i].id, f, vouchers[i].allUser)])
  {
    var after := vouchers[i := Row(vouchers[i].id, f, vouchers[i].allUser)];
    var lo, hi := if j < i then j else i, if j < i then i else j;
    assert !after[lo].deleted && !after[hi].deleted && after[lo].code == after[hi].code;
  }

  /** remove: 404 for a missing or deleted voucher; otherwise only the
      deleted mark is set. */
  method Remove(db: Database, id: Id) returns (r: Reply<Voucher>)
    modifies db`vouchers
    requires Valid(db.vouchers)
    ensures Valid(db.vouchers)
    ensures var i := IndexOfId(old(db.vouchers), id);
            if CheckVoucherMustExists(old(db.vouchers), [], id, None, false).None? then
              r == Reply(false, NOT_FOUND, "Voucher Not Found", None) && db.vouchers == old(db.vouchers)
            else
              i.Some? && !old(db.vouchers)[i.value].deleted
              && db.vouchers == old(db.vouchers)[i.value := old(db.vouchers)[i.value].(deleted := true)]
              && r == Reply(true, OK, "Successfully Deleted Data", None)
  {
    var found := CheckVoucherMustExists(db.vouchers, [], id, None, false);
    if found.None? {
      return Response.ResponseValue(false, NOT_FOUND, "Voucher Not Found");
    }
    var i := IndexOfId(db.vouchers, id);
    var j :| 0 <= j < |db.vouchers| && db.vouchers[j] == found.value;
    assert i.value == j by {
      assert VoucherKey(db.vouchers[i.value]) == VoucherKey(db.vouchers[j]);
    }
    var gone := db.vouchers[i.value].(deleted := true);
    ReplaceSameKey(db.vouchers, VoucherKey, i.value, gone);
    db.vouchers := db.vouchers[i.value := gone];
    r := Response.ResponseValue(true, OK, "Successfully Deleted Data");
  }

  /** After a remove, the plain lookup fails: a second remove is a 404. */
  lemma RemovedVoucherNotFound(vouchers: seq<Voucher>, i: nat)
    requires Valid(vouchers) && i < |vouchers|
    ensures CheckVoucherMustExists(vouchers[i := vouchers[i].(deleted := true)], [], vouchers[i].id, None, false).None?
  {
    var after := vouchers[i := vouchers[i].(deleted := true)];
    forall v | v in after
      ensures !PlainMatch(vouchers[i].id, v)
    {
      var j :| 0 <= j < |after| && after[j] == v;
      if j != i {
        assert VoucherKey(vouchers[j]) != VoucherKey(vouchers[i]);
      }
    }
  }

  // ---------------------------------------------------------------------
  // get and search

  /** get: the detail lookup when a user id is given, the plain one
      otherwise; 200 or 404. */
  function Get(vouchers: seq<Voucher>, userVouchers: seq<UserVoucher>, id: Id, userId: Option<Id>): (r: Reply<Voucher>)
    ensures r.status ==> r.statusCode == OK && r.message == "Successfully Get Data" && r.data.Some?
                         && r.data.value in vouchers && r.data.value.id == id
    ensures !r.status ==> r == Reply(false, NOT_FOUND, "Voucher Not Found", None)
    ensures r.status <==> CheckVoucherMustExists(vouchers, userVouchers, id, userId, true).Some?
  {
    match CheckVoucherMustExists(vouchers, userVouchers, id, userId, true)
    case None => Response.ResponseValue(false, NOT_FOUND, "Voucher Not Found")
    case Some(v) => Response.ResponseValueWithData(true, OK, "Successfully Get Data", v)
  }

  /** VoucherValidation.SEARCH: page and size at least 1, a discount filter
      of at least 100 when given, an optional upper limit. */
  datatype SearchRequest = SearchRequest(page: Option<int>, size: Option<int>, discount: Option<int>,
                                         upperLimit: Option<int>)

  predicate ValidSearch(q: SearchRequest) {
    q.page.Some? && q.page.value >= 1 && q.size.Some? && q.size.value >= 1
    && (q.discount.None? || q.discount.value >= 100)
  }

  function ListedVouchers(vouchers: seq<Voucher>, userVouchers: seq<UserVoucher>, userId: Option<Id>): seq<Voucher> {
    Filter(vouchers, (v: Voucher) => Listed(userVouchers, userId, v))
  }

  /** search: a failed validation lands in the catch (500); a discount
      filter asks Prisma for `contains` on a number, which it rejects (500);
      otherwise a page of the listed vouchers and their count. */
  function Search(vouchers: seq<Voucher>, userVouchers: seq<UserVoucher>, userId: Option<Id>, q: SearchRequest)
    : (r: Reply<PageData<Voucher>>)
    ensures !ValidSearch(q) || q.discount.Some? ==> r == InternalError()
    ensures ValidSearch(q) && q.discount.None? ==>
              r.status && r.statusCode == OK && r.message == "Successfully Get Data Vouchers" && r.data.Some?
              && r.data.value.totalItems == |ListedVouchers(vouchers, userVouchers, userId)|
              && |r.data.value.items| <= q.size.value
              && forall v :: v in r.data.value.items ==> v in vouchers && Listed(userVouchers, userId, v)
  {
    if !ValidSearch(q) || q.discount.Some? then InternalError()
    else
      var listed := ListedVouchers(vouchers, userVouchers, userId);
      var rows := Page(listed, (q.page.value - 1) * q.size.value, q.size.value);
      assert forall v :: v in rows ==> v in listed;
      Response.ResponseValueWithPaginate(true, OK, "Successfully Get Data Vouchers", rows, q.page, q.size, |listed|)
  }

  /** A user's listing is part of the listing without a user. */
  lemma UserListingWithinPublicListing(vouchers: seq<Voucher>, userVouchers: seq<UserVoucher>, userId: Id)
    ensures forall v :: v in ListedVouchers(vouchers, userVouchers, Some(userId)) ==>
                        v in ListedVouchers(vouchers, userVouchers, None)
  {
  }
}
