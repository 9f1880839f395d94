/** src/common/filters/zod-exception.filter.ts: ZodExceptionFilter.catch turns
    a failed schema parse into a 422 response whose `errors` map files every
    issue's message under the issue's first path element. */
module ZodFilter {
  /** One element of a zod issue path: an object key or an array index. */
  datatype PathElem = Key(name: string) | Index(n: nat)

  datatype Issue = Issue(path: seq<PathElem>, message: string)

  datatype FilterResponse = FilterResponse(success: bool, statusCode: int, message: string, errors: map<string, seq<string>>)

  function DigitChar(d: nat): char
    requires d < 10
  {
    "0123456789"[d]
  }

  /** Decimal text of an array index, as JavaScript writes a numeric object key. */
  function NatToString(n: nat): (r: string)
    ensures |r| >= 1
    ensures forall i :: 0 <= i < |r| ==> '0' <= r[i] <= '9'
  {
    if n < 10 then [DigitChar(n)] else NatToString(n / 10) + [DigitChar(n % 10)]
  }

  /** `i.path?.[0] ?? 'root'`: the key an issue is filed under. */
  function FieldOf(issue: Issue): string {
    if issue.path == [] then "root"
    else match issue.path[0]
      case Key(name) => name
      case Index(n) => NatToString(n)
  }

  /** `(acc[field] ??= []).push(message)` on a map value. */
  function File(acc: map<string, seq<string>>, field: string, message: string): map<string, seq<string>> {
    acc[field := (if field in acc then acc[field] else []) + [message]]
  }

  /** The grouped map after the fold has seen `issues`, one step per issue. */
  function GroupAll(issues: seq<Issue>): map<string, seq<string>> {
    if issues == [] then map[]
    else
      var last := issues[|issues| - 1];
      File(GroupAll(issues[..|issues| - 1]), FieldOf(last), last.message)
  }

  /** Reference definition: the messages of the issues filed under `field`, in
      the order the issues appear. */
  function MessagesFor(issues: seq<Issue>, field: string): seq<string> {
    if issues == [] then []
    else
      var last := issues[|issues| - 1];
      MessagesFor(issues[..|issues| - 1], field) + (if FieldOf(last) == field then [last.message] else [])
  }

  /** The filter: the reduce over the issues, then the 422 body. */
  method Catch(issues: seq<Issue>) returns (r: FilterResponse)
    ensures r.success == false && r.statusCode == 422 && r.message == "Validation failed"
    ensures r.errors == GroupAll(issues)
  {
    var acc: map<string, seq<string>> := map[];
    var i := 0;
    while i < |issues|
      invariant 0 <= i <= |issues|
      invariant acc == GroupAll(issues[..i])
    {
      var field := FieldOf(issues[i]);
      var bucket := if field in acc then acc[field] else [];
      acc := acc[field := bucket + [issues[i].message]];
      assert issues[..i + 1][..i] == issues[..i];
      i := i + 1;
    }
    assert issues[..i] == issues;
    r := FilterResponse(false, 422, "Validation failed", acc);
  }

  /** Every key holds exactly the messages filed under it, in issue order, and
      a key is present exactly when some issue is filed under it. */
  lemma {:induction false} GroupAllIsMessagesFor(issues: seq<Issue>, field: string)
    ensures field in GroupAll(issues) <==> MessagesFor(issues, field) != []
    ensures field in GroupAll(issues) ==> GroupAll(issues)[field] == MessagesFor(issues, field)
  {
    if issues != [] {
      GroupAllIsMessagesFor(issues[..|issues| - 1], field);
    }
  }

  lemma {:induction false} MessagesForNonEmpty(issues: seq<Issue>, field: string)
    ensures MessagesFor(issues, field) != [] <==> exists i :: 0 <= i < |issues| && FieldOf(issues[i]) == field
  {
    if issues != [] {
      var init := issues[..|issues| - 1];
      MessagesForNonEmpty(init, field);
      if exists i :: 0 <= i < |issues| && FieldOf(issues[i]) == field {
        var i :| 0 <= i < |issues| && FieldOf(issues[i]) == field;
        if i < |issues| - 1 {
          assert init[i] == issues[i];
        }
      }
      if exists i :: 0 <= i < |init| && FieldOf(init[i]) == field {
        var i :| 0 <= i < |init| && FieldOf(init[i]) == field;
        assert issues[i] == init[i];
      }
    }
  }

  /** The key set is exactly the set of fields the issues are filed under; in
      particular no issues gives an empty map. */
  lemma GroupAllKeys(issues: seq<Issue>)
    ensures GroupAll(issues).Keys == set i | 0 <= i < |issues| :: FieldOf(issues[i])
    ensures issues == [] ==> GroupAll(issues) == map[]
  {
    forall field
      ensures field in GroupAll(issues) <==> exists i :: 0 <= i < |issues| && FieldOf(issues[i]) == field
    {
      GroupAllIsMessagesFor(issues, field);
      MessagesForNonEmpty(issues, field);
    }
  }

  // ---------------------------------------------------------------------
  // No message is lost or duplicated

  /** The distinct fields in order of first appearance. */
  function FieldsInOrder(issues: seq<Issue>): seq<string> {
    if issues == [] then []
    else
      var init := FieldsInOrder(issues[..|issues| - 1]);
      var f := FieldOf(issues[|issues| - 1]);
      if f in init then init else init + [f]
  }

  predicate Distinct(keys: seq<string>) {
    forall i, j :: 0 <= i < j < |keys| ==> keys[i] != keys[j]
  }

  /** Total number of messages held under `keys`. */
  function TotalOver(m: map<string, seq<string>>, keys: seq<string>): nat {
    if keys == [] then 0
    else TotalOver(m, keys[..|keys| - 1]) + (if keys[|keys| - 1] in m then |m[keys[|keys| - 1]]| else 0)
  }

  lemma {:induction false} FieldsInOrderAreKeys(issues: seq<Issue>)
    ensures Distinct(FieldsInOrder(issues))
    ensures forall f :: f in FieldsInOrder(issues) <==> f in GroupAll(issues)
  {
    if issues != [] {
      FieldsInOrderAreKeys(issues[..|issues| - 1]);
    }
  }

  lemma {:induction false} TotalOverOutside(m: map<string, seq<string>>, keys: seq<string>, f: string, v: seq<string>)
    requires f !in keys
    ensures TotalOver(m[f := v], keys) == TotalOver(m, keys)
  {
    if keys != [] {
      TotalOverOutside(m, keys[..|keys| - 1], f, v);
    }
  }

  lemma {:induction false} TotalOverGrow(m: map<string, seq<string>>, keys: seq<string>, f: string, v: seq<string>)
    requires Distinct(keys) && f in keys && f in m
    ensures TotalOver(m[f := v], keys) == TotalOver(m, keys) - |m[f]| + |v|
  {
    var init := keys[..|keys| - 1];
    var last := keys[|keys| - 1];
    assert Distinct(init);
    if last == f {
      assert f !in init;
      TotalOverOutside(m, init, f, v);
    } else {
      assert f in init;
      TotalOverGrow(m, init, f, v);
    }
  }

  /** Across all keys the map holds exactly one message per issue. */
  lemma {:induction false} MessageCountIsIssueCount(issues: seq<Issue>)
    ensures TotalOver(GroupAll(issues), FieldsInOrder(issues)) == |issues|
  {
    if issues != [] {
      var init := issues[..|issues| - 1];
      var last := issues[|issues| - 1];
      var f := FieldOf(last);
      var g := GroupAll(init);
      var keys := FieldsInOrder(init);
      MessageCountIsIssueCount(init);
      FieldsInOrderAreKeys(init);
      var v := (if f in g then g[f] else []) + [last.message];
      if f in keys {
        TotalOverGrow(g, keys, f, v);
      } else {
        TotalOverOutside(g, keys, f, v);
        assert (keys + [f])[..|keys|] == keys;
      }
    }
  }
}
