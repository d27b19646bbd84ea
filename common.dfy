/** Values shared by every part of the model: optional values (SQL NULL, omitted
    query parameters), the handlers' outcome with its HTTP error, and the
    truthiness test Python applies to an optional string parameter. */
module Common {

  /** A nullable column or an omitted parameter. */
  datatype Option<+T> = None | Some(value: T)

  /** The HTTP errors the handlers raise. */
  datatype HttpError = BadRequest | NotFound | Conflict | InternalError
  {
    function Code(): (c: int)
      ensures 400 <= c < 600
      ensures c == 400 <==> this == BadRequest
      ensures c == 404 <==> this == NotFound
      ensures c == 409 <==> this == Conflict
    {
      match this
      case BadRequest => 400
      case NotFound => 404
      case Conflict => 409
      case InternalError => 500
    }
  }

  /** A handler either answers with a value or raises an HTTP error. */
  datatype Result<+R> = Ok(value: R) | Err(error: HttpError)

  /** `if f:` on an `Optional[str]`: None and the empty string are both false. */
  predicate Given(f: Option<string>)
  {
    f.Some? && f.value != ""
  }

  /** No element occurs twice. */
  predicate Distinct<T(==)>(s: seq<T>)
  {
    forall i, j :: 0 <= i < j < |s| ==> s[i] != s[j]
  }

  /** The elements of `s` that satisfy `p`, in their order: a WHERE clause. */
  function Filter<T(!new)>(s: seq<T>, p: T -> bool): (r: seq<T>)
    ensures |r| <= |s|
    ensures forall k :: 0 <= k < |r| ==> p(r[k])
    ensures forall x :: multiset(r)[x] == if p(x) then multiset(s)[x] else 0
  {
    if s == [] then []
    else
      assert s == [s[0]] + s[1..];
      (if p(s[0]) then [s[0]] else []) + Filter(s[1..], p)
  }

  /** The key column of each row, in order. */
  function Ids<T>(rows: seq<T>, key: T -> int): (r: seq<int>)
    ensures |r| == |rows| && forall k :: 0 <= k < |rows| ==> r[k] == key(rows[k])
  {
    seq(|rows|, k requires 0 <= k < |rows| => key(rows[k]))
  }

  /** `SELECT * FROM <table> WHERE id = ?` then `fetchone()`, with 404 for
      no row: the first row whose key is `id`. */
  function GetById<T>(rows: seq<T>, key: T -> int, id: int): (r: Result<T>)
    ensures r.Err? <==> forall k :: 0 <= k < |rows| ==> key(rows[k]) != id
    ensures r.Err? ==> r.error == NotFound
    ensures r.Ok? ==> r.value in rows && key(r.value) == id
  {
    if rows == [] then Err(NotFound)
    else if key(rows[0]) == id then Ok(rows[0])
    else
      var r := GetById(rows[1..], key, id);
      assert forall k :: 1 <= k < |rows| ==> rows[k] == rows[1..][k - 1];
      r
  }

  /** When the key is unique (a primary key), the lookup returns the one row
      that has it. */
  lemma {:induction false} GetByIdUnique<T>(rows: seq<T>, key: T -> int, at: nat)
    requires at < |rows|
    requires forall a, b :: 0 <= a < b < |rows| ==> key(rows[a]) != key(rows[b])
    ensures GetById(rows, key, key(rows[at])) == Ok(rows[at])
  {
    if at > 0 {
      assert key(rows[0]) != key(rows[at]);
      assert forall k :: 1 <= k < |rows| ==> rows[k] == rows[1..][k - 1];
      GetByIdUnique(rows[1..], key, at - 1);
    }
  }
}
