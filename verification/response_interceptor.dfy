/** The backend's response interceptor: every successful handler result is
    wrapped as `{success: true, data, message, timestamp}` unless it already
    carries `success` and `timestamp`. The timestamp is the clock's and is a
    parameter here. */
module ResponseInterceptor {

  /** A handler result as JSON. An object is its list of members in order. */
  datatype Json =
    | JNull
    | JBool(b: bool)
    | JNum(n: int)
    | JStr(s: string)
    | JArr(items: seq<Json>)
    | JObj(members: seq<(string, Json)>)

  predicate HasKey(members: seq<(string, Json)>, key: string) {
    exists i :: 0 <= i < |members| && members[i].0 == key
  }

  /** `data && typeof data === 'object' && 'success' in data &&
      'timestamp' in data`: an object that already has both keys, whatever
      their values. Arrays have neither key and null is falsy. */
  predicate AlreadyWrapped(data: Json) {
    data.JObj? && HasKey(data.members, "success") && HasKey(data.members, "timestamp")
  }

  /** The message for a request method and response status. */
  function SuccessMessage(httpMethod: string, statusCode: int): (r: string)
    ensures httpMethod == "POST" && statusCode == 201 ==> r == "Resource created successfully"
    ensures httpMethod == "POST" && statusCode != 201 ==> r == "Operation successful"
    ensures httpMethod == "PUT" || httpMethod == "PATCH" ==> r == "Resource updated successfully"
    ensures httpMethod == "DELETE" ==> r == "Resource deleted successfully"
    ensures httpMethod == "GET" ==> r == "Data retrieved successfully"
    ensures httpMethod !in {"POST", "PUT", "PATCH", "DELETE", "GET"} ==> r == "Operation successful"
  {
    if httpMethod == "POST" then
      (if statusCode == 201 then "Resource created successfully" else "Operation successful")
    else if httpMethod == "PUT" || httpMethod == "PATCH" then "Resource updated successfully"
    else if httpMethod == "DELETE" then "Resource deleted successfully"
    else if httpMethod == "GET" then "Data retrieved successfully"
    else "Operation successful"
  }

  /** The envelope the interceptor builds around `data`. */
  function Envelope(data: Json, message: string, timestamp: string): (r: Json)
    ensures r.JObj? && |r.members| == 4
    ensures AlreadyWrapped(r)
  {
    var r := JObj([("success", JBool(true)), ("data", data), ("message", JStr(message)), ("timestamp", JStr(timestamp))]);
    assert r.members[0].0 == "success" && r.members[3].0 == "timestamp";
    r
  }

  /** The interceptor's `map`: an already wrapped result passes through
      unchanged; anything else is wrapped with `success` true, the same
      data, and the message for the method and status. */
  function Wrap(data: Json, httpMethod: string, statusCode: int, timestamp: string): (r: Json)
    ensures AlreadyWrapped(data) ==> r == data
    ensures !AlreadyWrapped(data) ==> r == Envelope(data, SuccessMessage(httpMethod, statusCode), timestamp)
    ensures AlreadyWrapped(r)
  {
    if AlreadyWrapped(data) then data
    else Envelope(data, SuccessMessage(httpMethod, statusCode), timestamp)
  }

  /** Wrapping a wrapped result, for any request and at any time, returns it
      unchanged. */
  lemma WrapIdempotent(data: Json, m1: string, s1: int, t1: string, m2: string, s2: int, t2: string)
    ensures Wrap(Wrap(data, m1, s1, t1), m2, s2, t2) == Wrap(data, m1, s1, t1)
  {
  }

  /** A wrapped result carries `success` true and the unchanged data, and
      its message depends on the method and status only: two different
      results wrapped for the same request get the same message. */
  lemma WrapKeepsDataAndMessage(d1: Json, d2: Json, httpMethod: string, statusCode: int, t1: string, t2: string)
    requires !AlreadyWrapped(d1) && !AlreadyWrapped(d2)
    ensures Wrap(d1, httpMethod, statusCode, t1).members[0] == ("success", JBool(true))
    ensures Wrap(d1, httpMethod, statusCode, t1).members[1] == ("data", d1)
    ensures Wrap(d1, httpMethod, statusCode, t1).members[2] == Wrap(d2, httpMethod, statusCode, t2).members[2]
  {
  }

  /** Arrays, scalars and null are always wrapped. */
  lemma NonObjectsWrapped(data: Json, httpMethod: string, statusCode: int, timestamp: string)
    requires !data.JObj?
    ensures Wrap(data, httpMethod, statusCode, timestamp) != data
  {
  }
}
