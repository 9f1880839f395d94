/** src/user-voucher/user-voucher.service.ts: grants of a voucher to a user,
    with a usage total. */
module UserVouchers {
  import opened Common
  import opened Store
  import Vouchers
  import Response

  function GrantKey(uv: UserVoucher): Id { uv.id }

  /** One entry of the `errors` list a 422 carries. */
  datatype FieldError = FieldError(path: string, code: string, message: string)

  /** The data of a reply: the row, or the errors of a rejected id. */
  datatype Body = Grant(row: UserVoucher) | Errors(errors: seq<FieldError>)

  /** The 422 for an id that is not a UUID. */
  function BadId(field: string): (r: Reply<Body>)
    ensures !r.status && r.statusCode == UNPROCESSABLE_ENTITY && r.message == "validation fail"
    ensures r.data == Some(Errors([FieldError(field, "invalid_type", "Invalid input: " + field + " bad input")]))
  {
    Response.ResponseValueWithData(false, UNPROCESSABLE_ENTITY, "validation fail",
      Errors([FieldError(field, "invalid_type", "Invalid input: " + field + " bad input")]))
  }

  /** checkUserVoucherMustExists: a live row with the id. */
  function CheckUserVoucherMustExists(grants: seq<UserVoucher>, id: Id): (r: Option<nat>)
    ensures r.Some? ==> r.value < |grants| && grants[r.value].id == id && !grants[r.value].deleted
    ensures r.None? <==> forall k :: 0 <= k < |grants| ==> !(grants[k].id == id && !grants[k].deleted)
  {
    FindFirst(grants, (uv: UserVoucher) => uv.id == id && !uv.deleted)
  }

  /** checkUserMustExists (src/user/user.service.ts): a user row with the id. */
  predicate UserExists(users: seq<User>, id: Id) {
    exists u :: u in users && u.id == id
  }

  /** The isUnique check of create: no live grant of this voucher to this user. */
  predicate GrantFree(grants: seq<UserVoucher>, userId: Id, voucherId: Id) {
    forall uv :: uv in grants && !uv.deleted ==> !(uv.userId == userId && uv.voucherId == voucherId)
  }

  /** No user holds two live grants of the same voucher. */
  predicate LiveGrantsDistinct(grants: seq<UserVoucher>) {
    forall i, j :: 0 <= i < j < |grants| && !grants[i].deleted && !grants[j].deleted ==>
      !(grants[i].userId == grants[j].userId && grants[i].voucherId == grants[j].voucherId)
  }

  predicate Valid(grants: seq<UserVoucher>) {
    KeysDistinct(grants, GrantKey)
  }

  /** UserVoucherValidation.CREATE / UPDATE: user_id, voucher_id and total
      are required, and id as well for an update. */
  datatype GrantRequest = GrantRequest(userId: Option<string>, voucherId: Option<string>, total: Option<int>)

  predicate ValidRequest(q: GrantRequest) { q.userId.Some? && q.voucherId.Some? && q.total.Some? }

  /** The outcome of the checks create makes, in their order. */
  function CreateCheck(vouchers: seq<Voucher>, users: seq<User>, grants: seq<UserVoucher>, q: GrantRequest): (r: Option<Reply<Body>>)
    requires ValidRequest(q)
    ensures r.None? <==> IsUuid(q.userId.value) && IsUuid(q.voucherId.value)
                         && Vouchers.CheckVoucherMustExists(vouchers, [], q.voucherId.value, None, false).Some?
                         && UserExists(users, q.userId.value) && GrantFree(grants, q.userId.value, q.voucherId.value)
    ensures !IsUuid(q.userId.value) ==> r == Some(BadId("user_id"))
    ensures IsUuid(q.userId.value) && !IsUuid(q.voucherId.value) ==> r == Some(BadId("voucher_id"))
    ensures r.Some? && r.value.statusCode == NOT_FOUND ==>
              IsUuid(q.userId.value) && IsUuid(q.voucherId.value)
              && (r.value.message == "Voucher Not Found" <==>
                    Vouchers.CheckVoucherMustExists(vouchers, [], q.voucherId.value, None, false).None?)
    ensures r.Some? ==> !r.value.status && r.value.statusCode in {UNPROCESSABLE_ENTITY, NOT_FOUND, CONFLICT}
    ensures r == Some(Reply(false, CONFLICT, "User Voucher Already in Database", None)) <==>
              IsUuid(q.userId.value) && IsUuid(q.voucherId.value)
              && Vouchers.CheckVoucherMustExists(vouchers, [], q.voucherId.value, None, false).Some?
              && UserExists(users, q.userId.value) && !GrantFree(grants, q.userId.value, q.voucherId.value)
  {
    if !IsUuid(q.userId.value) then Some(BadId("user_id"))
    else if !IsUuid(q.voucherId.value) then Some(BadId("voucher_id"))
    else if Vouchers.CheckVoucherMustExists(vouchers, [], q.voucherId.value, None, false).None? then
      Some(Response.ResponseValue(false, NOT_FOUND, "Voucher Not Found"))
    else if !UserExists(users, q.userId.value) then Some(Response.ResponseValue(false, NOT_FOUND, "User Not Found"))
    else if !GrantFree(grants, q.userId.value, q.voucherId.value) then
      Some(Response.ResponseValue(false, CONFLICT, "User Voucher Already in Database"))
    else None
  }

  /** create: validation (422, no data), the checks above, then exactly one
      new live row and 201; nothing is written when a check fails. */
  method Create(db: Database, request: GrantRequest, newId: Id) returns (r: Reply<Body>)
    modifies db`userVouchers
    requires Valid(db.userVouchers) && FreshKey(db.userVouchers, GrantKey, newId)
    ensures Valid(db.userVouchers)
    ensures old(LiveGrantsDistinct(db.userVouchers)) ==> LiveGrantsDistinct(db.userVouchers)
    ensures !ValidRequest(request) ==> r == ValidationFail() && db.userVouchers == old(db.userVouchers)
    ensures ValidRequest(request) ==>
              var check := CreateCheck(db.vouchers, db.users, old(db.userVouchers), request);
              if check.Some? then r == check.value && db.userVouchers == old(db.userVouchers)
              else
                var uv := UserVoucher(newId, request.userId.value, request.voucherId.value, request.total.value, false);
                db.userVouchers == old(db.userVouchers) + [uv]
                && r == Reply(true, CREATED, "Successfully Created Data", Some(Grant(uv)))
  {
    if !ValidRequest(request) {
      return ValidationFail();
    }
    var check := CreateCheck(db.vouchers, db.users, db.userVouchers, request);
    if check.Some? {
      return check.value;
    }
    var uv := UserVoucher(newId, request.userId.value, request.voucherId.value, request.total.value, false);
    AppendFreshKey(db.userVouchers, GrantKey, uv);
    assert forall i :: 0 <= i < |db.userVouchers| ==> db.userVouchers[i] in db.userVouchers;
    db.userVouchers := db.userVouchers + [uv];
    r := Response.ResponseValueWithData(true, CREATED, "Successfully Created Data", Grant(uv));
  }

  /** update: a failed validation lands in the catch (500, not 422); the two
      UUID checks (422); the voucher (404); the live grant (404); then user,
      voucher and total are rewritten and the reply is a 201. No uniqueness
      check and no user check is made: a user id with no user row fails the
      foreign key (500). */
  method Update(db: Database, id: Option<Id>, request: GrantRequest) returns (r: Reply<Body>)
    modifies db`userVouchers
    requires Valid(db.userVouchers)
    ensures Valid(db.userVouchers)
    ensures !(ValidRequest(request) && id.Some?) ==> r == InternalError() && db.userVouchers == old(db.userVouchers)
    ensures ValidRequest(request) && id.Some? ==>
              var userId, voucherId := request.userId.value, request.voucherId.value;
              var k := CheckUserVoucherMustExists(old(db.userVouchers), id.value);
              if !IsUuid(userId) then r == BadId("user_id") && db.userVouchers == old(db.userVouchers)
              else if !IsUuid(voucherId) then r == BadId("voucher_id") && db.userVouchers == old(db.userVouchers)
              else if Vouchers.CheckVoucherMustExists(db.vouchers, [], voucherId, None, false).None? then
                r == Reply(false, NOT_FOUND, "Voucher Not Found", None) && db.userVouchers == old(db.userVouchers)
              else if k.None? then
                r == Reply(false, NOT_FOUND, "User Voucher Not Found", None) && db.userVouchers == old(db.userVouchers)
              else if !UserExists(db.users, userId) then
                r == InternalError() && db.userVouchers == old(db.userVouchers)
              else
                var uv := old(db.userVouchers)[k.value].(userId := userId, voucherId := voucherId, total := request.total.value);
                !uv.deleted && uv.id == id.value
                && db.userVouchers == old(db.userVouchers)[k.value := uv]
                && r == Reply(true, CREATED, "Successfully Created Data", Some(Grant(uv)))
  {
    if !(ValidRequest(request) && id.Some?) {
      return InternalError();
    }
    var userId, voucherId := request.userId.value, request.voucherId.value;
    if !IsUuid(userId) {
      return BadId("user_id");
    }
    if !IsUuid(voucherId) {
      return BadId("voucher_id");
    }
    if Vouchers.CheckVoucherMustExists(db.vouchers, [], voucherId, None, false).None? {
      return Response.ResponseValue(false, NOT_FOUND, "Voucher Not Found");
    }
    var k := CheckUserVoucherMustExists(db.userVouchers, id.value);
    if k.None? {
      return Response.ResponseValue(false, NOT_FOUND, "User Voucher Not Found");
    }
    if !UserExists(db.users, userId) {
      return InternalError();
    }
    var uv := db.userVouchers[k.value].(userId := userId, voucherId := voucherId, total := request.total.value);
    ReplaceSameKey(db.userVouchers, GrantKey, k.value, uv);
    db.userVouchers := db.userVouchers[k.value := uv];
    r := Response.ResponseValueWithData(true, CREATED, "Successfully Created Data", Grant(uv));
  }

  /** update can leave a user with two live grants of one voucher. */
  lemma UpdateCanDuplicateGrant(grants: seq<UserVoucher>, k: nat, j: nat, total: int)
    requires k < |grants| && j < |grants| && k != j && !grants[k].deleted && !grants[j].deleted
    ensures var uv := grants[k].(userId := grants[j].userId, voucherId := grants[j].voucherId, total := total);
            !LiveGrantsDistinct(grants[k := uv])
  {
    var after := grants[k := grants[k].(userId := grants[j].userId, voucherId := grants[j].voucherId, total := total)];
    var lo, hi := if j < k then j else k, if j < k then k else j;
    assert !after[lo].deleted && !after[hi].deleted;
    assert after[lo].userId == after[hi].userId && after[lo].voucherId == after[hi].voucherId;
  }

  /** remove: 404 unless a live grant has the id; then it is soft-deleted. */
  method Remove(db: Database, id: Id) returns (r: Reply<Body>)
    modifies db`userVouchers
    requires Valid(db.userVouchers)
    ensures Valid(db.userVouchers)
    ensures var k := CheckUserVoucherMustExists(old(db.userVouchers), id);
            if k.None? then
              r == Reply(false, NOT_FOUND, "User Voucher Not Found", None) && db.userVouchers == old(db.userVouchers)
            else
              db.userVouchers == old(db.userVouchers)[k.value := old(db.userVouchers)[k.value].(deleted := true)]
              && r == Reply(true, OK, "Successfully Deleted Data", None)
  {
    var k := CheckUserVoucherMustExists(db.userVouchers, id);
    if k.None? {
      return Response.ResponseValue(false, NOT_FOUND, "User Voucher Not Found");
    }
    var gone := db.userVouchers[k.value].(deleted := true);
    ReplaceSameKey(db.userVouchers, GrantKey, k.value, gone);
    db.userVouchers := db.userVouchers[k.value := gone];
    r := Response.ResponseValue(true, OK, "Successfully Deleted Data");
  }

  /** A second remove of the same id is a 404. */
  lemma SecondRemoveNotFound(grants: seq<UserVoucher>, id: Id)
    requires Valid(grants) && CheckUserVoucherMustExists(grants, id).Some?
    ensures var k := CheckUserVoucherMustExists(grants, id).value;
            CheckUserVoucherMustExists(grants[k := grants[k].(deleted := true)], id).None?
  {
    var k := CheckUserVoucherMustExists(grants, id).value;
    var after := grants[k := grants[k].(deleted := true)];
    forall j | 0 <= j < |after|
      ensures !(after[j].id == id && !after[j].deleted)
    {
      if j != k {
        assert GrantKey(grants[j]) != GrantKey(grants[k]);
      }
    }
  }
}
