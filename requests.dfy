/**
 * Building the HTTP requests the client sends: `sendPostRequest` and
 * `sendGetRequest` up to the point where the request goes to the HTTP client.
 * The session token the client holds is passed in; sending itself belongs to
 * the client class, where the server's answer is a parameter.
 */
module Requests {
  import opened Wrappers

  datatype HttpMethod = Get | Post

  /** A header name and its value. */
  type Header = (string, string)

  /** A request as handed to the HTTP client. */
  datatype Request = Request(verb: HttpMethod, uri: string, headers: seq<Header>, body: Option<string>)

  /** The client's own error: a message and the status code it reports. */
  datatype ApiException = ApiException(message: string, statusCode: int)

  const NotLoggedIn: string := "Cannot make authenticated request: Not logged in."
  const JsonType: string := "application/json"
  const TokenHeader: string := "session-token"

  /** The client holds a session token it may send: set and not empty. */
  predicate HasCredential(token: Option<string>) {
    token.Some? && token.value != []
  }

  /** The values given to header `name`, in the order they were added. */
  function HeaderValues(headers: seq<Header>, name: string): (r: seq<string>)
    ensures |r| <= |headers|
    ensures forall v :: v in r ==> (name, v) in headers
    ensures forall k :: 0 <= k < |headers| && headers[k].0 == name ==> headers[k].1 in r
  {
    if headers == [] then []
    else FirstValue(headers[0], name) + HeaderValues(headers[1..], name)
  }

  /** What looking a header up in a non-empty list takes from its first header. */
  function FirstValue(h: Header, name: string): seq<string> {
    if h.0 == name then [h.1] else []
  }

  /** Looking a header up in two lists of headers put together. */
  lemma {:induction false} HeaderValuesAppend(a: seq<Header>, b: seq<Header>, name: string)
    ensures HeaderValues(a + b, name) == HeaderValues(a, name) + HeaderValues(b, name)
    decreases |a|
  {
    if a == [] {
      assert a + b == b;
    } else {
      var ab := a + b;
      assert ab[0] == a[0] && ab[1..] == a[1..] + b;
      calc {
        HeaderValues(ab, name);
        FirstValue(a[0], name) + HeaderValues(a[1..] + b, name);
        { HeaderValuesAppend(a[1..], b, name); }
        FirstValue(a[0], name) + (HeaderValues(a[1..], name) + HeaderValues(b, name));
        HeaderValues(a, name) + HeaderValues(b, name);
      }
    }
  }

  /**
   * The session-token header an authenticated request adds, or the error when
   * the client has no usable token. A request that needs no authentication
   * adds nothing, whatever the token.
   */
  function AuthHeaders(token: Option<string>, requireAuth: bool): (r: Result<seq<Header>, ApiException>)
    ensures r.Failure? <==> requireAuth && !HasCredential(token)
    ensures r.Failure? ==> r.error == ApiException(NotLoggedIn, 0)
    ensures r.Success? ==> HeaderValues(r.value, TokenHeader) == if requireAuth then [token.value] else []
    ensures r.Success? ==> |r.value| <= 1
  {
    if !requireAuth then Success([])
    else if !HasCredential(token) then Failure(ApiException(NotLoggedIn, 0))
    else Success([(TokenHeader, token.value)])
  }

  /**
   * `sendPostRequest(endpoint, requestBody, requireAuth)` up to sending: the
   * request, or the error raised before anything is sent when authentication
   * is required and the client holds no token.
   */
  function PreparePost(baseUrl: string, token: Option<string>, endpoint: string, requestBody: string, requireAuth: bool)
    : (r: Result<Request, ApiException>)
    ensures r.Failure? <==> requireAuth && !HasCredential(token)
    ensures r.Failure? ==> r.error == ApiException(NotLoggedIn, 0)
    ensures r.Success? ==> r.value.verb == Post && r.value.uri == baseUrl + endpoint
    ensures r.Success? ==> r.value.body == Some(requestBody)
    ensures r.Success? ==> HeaderValues(r.value.headers, "Content-Type") == [JsonType]
    ensures r.Success? ==> HeaderValues(r.value.headers, "accept") == [JsonType]
    ensures r.Success? ==> HeaderValues(r.value.headers, TokenHeader) == if requireAuth then [token.value] else []
    ensures r.Success? ==> forall h :: h in r.value.headers ==> h.0 == "Content-Type" || h.0 == "accept" || h.0 == TokenHeader
  {
    match AuthHeaders(token, requireAuth)
    case Failure(e) => Failure(e)
    case Success(auth) =>
      var headers := [("Content-Type", JsonType), ("accept", JsonType)] + auth;
      HeaderValuesAppend([("Content-Type", JsonType), ("accept", JsonType)], auth, "Content-Type");
      HeaderValuesAppend([("Content-Type", JsonType), ("accept", JsonType)], auth, "accept");
      HeaderValuesAppend([("Content-Type", JsonType), ("accept", JsonType)], auth, TokenHeader);
      Success(Request(Post, baseUrl + endpoint, headers, Some(requestBody)))
  }

  /** `sendGetRequest(endpoint, requireAuth)` up to sending; a GET carries no body and no content type. */
  function PrepareGet(baseUrl: string, token: Option<string>, endpoint: string, requireAuth: bool)
    : (r: Result<Request, ApiException>)
    ensures r.Failure? <==> requireAuth && !HasCredential(token)
    ensures r.Failure? ==> r.error == ApiException(NotLoggedIn, 0)
    ensures r.Success? ==> r.value.verb == Get && r.value.uri == baseUrl + endpoint
    ensures r.Success? ==> r.value.body == None
    ensures r.Success? ==> HeaderValues(r.value.headers, "Content-Type") == []
    ensures r.Success? ==> HeaderValues(r.value.headers, "accept") == [JsonType]
    ensures r.Success? ==> HeaderValues(r.value.headers, TokenHeader) == if requireAuth then [token.value] else []
    ensures r.Success? ==> forall h :: h in r.value.headers ==> h.0 == "accept" || h.0 == TokenHeader
  {
    match AuthHeaders(token, requireAuth)
    case Failure(e) => Failure(e)
    case Success(auth) =>
      HeaderValuesAppend([("accept", JsonType)], auth, "Content-Type");
      HeaderValuesAppend([("accept", JsonType)], auth, "accept");
      HeaderValuesAppend([("accept", JsonType)], auth, TokenHeader);
      Success(Request(Get, baseUrl + endpoint, [("accept", JsonType)] + auth, None))
  }
}
