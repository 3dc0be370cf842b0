/**
 * The `MidsQuest` client object: it holds the API's base URL and the session
 * token a successful login stores, builds each request, and returns the
 * status code of the server's answer.
 *
 * The HTTP client is not modelled: each operation takes the `Reply` the HTTP
 * client would give back for the request it sends, and the ghost field `sent`
 * records every request handed to it, in order.
 */
module MidsQuestClient {
  import opened Wrappers
  import opened RequestBody
  import opened JsonExtract
  import opened Requests

  /** What the HTTP client gives back for a request: the server's response, or the I/O failure it throws. */
  datatype Reply = Response(statusCode: int, body: string) | TransportError

  /** How a public operation ends: with the status code it returns, or with the I/O exception it lets through. */
  datatype Outcome = Status(code: int) | Aborted

  /** The outcome of an operation whose request was sent: the reply's status code, or the failure passed on. */
  function OutcomeOf(reply: Reply): (o: Outcome)
    ensures o.Status? <==> reply.Response?
    ensures o.Status? ==> o.code == reply.statusCode
  {
    if reply.Response? then Status(reply.statusCode) else Aborted
  }

  /**
   * The token discipline of a sent request: sign-up and login requests carry
   * no session token; every other request carries exactly one, and it is not
   * empty.
   */
  ghost predicate WellAuthenticated(baseUrl: string, request: Request) {
    var tokens := HeaderValues(request.headers, TokenHeader);
    if request.uri == baseUrl + "/user" || request.uri == baseUrl + "/login" then tokens == []
    else |tokens| == 1 && tokens[0] != []
  }

  /** Every request of a history keeps the token discipline. */
  ghost predicate AllWellAuthenticated(baseUrl: string, history: seq<Request>) {
    forall i :: 0 <= i < |history| ==> WellAuthenticated(baseUrl, history[i])
  }

  /** Different endpoints under one base URL are different URIs. */
  lemma EndpointsDiffer(baseUrl: string, a: string, b: string)
    requires a != b
    ensures baseUrl + a != baseUrl + b
  {
    assert (baseUrl + a)[|baseUrl|..] == a;
    assert (baseUrl + b)[|baseUrl|..] == b;
  }

  class MidsQuest {
    const apiBaseUrl: string
    var sessionToken: Option<string>
    ghost var sent: seq<Request>

    /** Every request sent so far keeps the token discipline. */
    ghost predicate Valid()
      reads this`sent
    {
      AllWellAuthenticated(apiBaseUrl, sent)
    }

    /** Appending a request that keeps the discipline to a history that keeps it. */
    lemma KeptWhenAppended(history: seq<Request>, request: Request)
      requires AllWellAuthenticated(apiBaseUrl, history)
      requires WellAuthenticated(apiBaseUrl, request)
      ensures AllWellAuthenticated(apiBaseUrl, history + [request])
    {
    }

    /** A new client: no token yet, nothing sent. */
    constructor (apiBaseUrl: string)
      ensures this.apiBaseUrl == apiBaseUrl && sessionToken == None && sent == []
      ensures Valid()
    {
      this.apiBaseUrl := apiBaseUrl;
      sessionToken := None;
      sent := [];
    }

    /** The token the last successful login stored, if any. */
    method GetToken() returns (token: Option<string>)
      ensures token == sessionToken
    {
      token := sessionToken;
    }

    /**
     * `sendPostRequest`: builds the request; when it can be built, hands it to
     * the HTTP client and gives back the reply, otherwise sends nothing and
     * gives back the error.
     */
    method SendPostRequest(endpoint: string, requestBody: string, requireAuth: bool, reply: Reply)
      returns (r: Result<Reply, ApiException>)
      modifies this`sent
      ensures match PreparePost(apiBaseUrl, sessionToken, endpoint, requestBody, requireAuth)
        case Failure(e) => r == Failure(e) && sent == old(sent)
        case Success(request) => r == Success(reply) && sent == old(sent) + [request]
    {
      match PreparePost(apiBaseUrl, sessionToken, endpoint, requestBody, requireAuth)
      case Failure(e) =>
        r := Failure(e);
      case Success(request) =>
        sent := sent + [request];
        r := Success(reply);
    }

    /** `sendGetRequest`, in the same way. */
    method SendGetRequest(endpoint: string, requireAuth: bool, reply: Reply)
      returns (r: Result<Reply, ApiException>)
      modifies this`sent
      ensures match PrepareGet(apiBaseUrl, sessionToken, endpoint, requireAuth)
        case Failure(e) => r == Failure(e) && sent == old(sent)
        case Success(request) => r == Success(reply) && sent == old(sent) + [request]
    {
      match PrepareGet(apiBaseUrl, sessionToken, endpoint, requireAuth)
      case Failure(e) =>
        r := Failure(e);
      case Success(request) =>
        sent := sent + [request];
        r := Success(reply);
    }

    /** A request sent without authentication keeps the token discipline. */
    lemma PublicRequestKeepsDiscipline(endpoint: string, requestBody: string)
      requires endpoint == "/user" || endpoint == "/login"
      ensures WellAuthenticated(apiBaseUrl, PreparePost(apiBaseUrl, sessionToken, endpoint, requestBody, false).value)
    {
    }

    /** A request sent with the client's token keeps the token discipline. */
    lemma AuthenticatedRequestKeepsDiscipline(endpoint: string, request: Request)
      requires endpoint != "/user" && endpoint != "/login"
      requires HasCredential(sessionToken)
      requires request.uri == apiBaseUrl + endpoint
      requires HeaderValues(request.headers, TokenHeader) == [sessionToken.value]
      ensures WellAuthenticated(apiBaseUrl, request)
    {
      EndpointsDiffer(apiBaseUrl, endpoint, "/user");
      EndpointsDiffer(apiBaseUrl, endpoint, "/login");
    }

    /**
     * `createUser`: sends the credentials to `/user` without a token and
     * returns the status code; the token is left as it was.
     */
    method CreateUser(username: string, password: string, reply: Reply) returns (outcome: Outcome)
      requires Valid()
      modifies this`sent
      ensures Valid()
      ensures sent == old(sent) + [PreparePost(apiBaseUrl, sessionToken, "/user", CredentialsBody(username, password), false).value]
      ensures outcome == OutcomeOf(reply)
    {
      var requestBody := CredentialsBody(username, password);
      PublicRequestKeepsDiscipline("/user", requestBody);
      var response := SendPostRequest("/user", requestBody, false, reply);
      match response
      case Failure(_) =>
        assert false;
      case Success(rep) =>
        outcome := OutcomeOf(rep);
    }

    /**
     * `login`: sends the credentials to `/login` without a token; on status
     * 200 stores whatever the reply's `session_token` reads as, the sentinel
     * included; on any other status keeps the token it had.
     */
    method Login(username: string, password: string, reply: Reply) returns (outcome: Outcome)
      requires Valid()
      modifies this
      ensures Valid()
      ensures sent == old(sent) + [PreparePost(apiBaseUrl, old(sessionToken), "/login", CredentialsBody(username, password), false).value]
      ensures outcome == OutcomeOf(reply)
      ensures sessionToken == if reply.Response? && reply.statusCode == 200
        then Some(ParseSimpleJsonValue(reply.body, "session_token"))
        else old(sessionToken)
    {
      var requestBody := CredentialsBody(username, password);
      PublicRequestKeepsDiscipline("/login", requestBody);
      var response := SendPostRequest("/login", requestBody, false, reply);
      match response
      case Failure(_) =>
        assert false;
      case Success(rep) =>
        if rep.Response? && rep.statusCode == 200 {
          var token := ParseSimpleJsonValue(rep.body, "session_token");
          sessionToken := Some(token);
        }
        outcome := OutcomeOf(rep);
    }

    /**
     * An authenticated POST (`move`, `setDoing`, `useItem`): without a token
     * nothing is sent and the status is 0; with one, the request carries it.
     */
    method AuthenticatedPost(endpoint: string, requestBody: string, reply: Reply) returns (outcome: Outcome)
      requires Valid()
      requires endpoint != "/user" && endpoint != "/login"
      modifies this`sent
      ensures Valid()
      ensures !HasCredential(sessionToken) ==> outcome == Status(0) && sent == old(sent)
      ensures HasCredential(sessionToken) ==>
        outcome == OutcomeOf(reply) && sent == old(sent) + [PreparePost(apiBaseUrl, sessionToken, endpoint, requestBody, true).value]
    {
      var prepared := PreparePost(apiBaseUrl, sessionToken, endpoint, requestBody, true);
      var response := SendPostRequest(endpoint, requestBody, true, reply);
      if prepared.Success? {
        AuthenticatedRequestKeepsDiscipline(endpoint, prepared.value);
        KeptWhenAppended(old(sent), prepared.value);
      }
      match response
      case Failure(e) =>
        outcome := Status(e.statusCode);
      case Success(rep) =>
        outcome := OutcomeOf(rep);
    }

    /** `move`: POST `{"direction": ...}` to `/move`. */
    method Move(direction: string, reply: Reply) returns (outcome: Outcome)
      requires Valid()
      modifies this`sent
      ensures Valid()
      ensures !HasCredential(sessionToken) ==> outcome == Status(0) && sent == old(sent)
      ensures HasCredential(sessionToken) ==>
        outcome == OutcomeOf(reply) && sent == old(sent) + [PreparePost(apiBaseUrl, sessionToken, "/move", DirectionBody(direction), true).value]
    {
      outcome := AuthenticatedPost("/move", DirectionBody(direction), reply);
    }

    /** `look`: GET `/look`. */
    method Look(reply: Reply) returns (outcome: Outcome)
      requires Valid()
      modifies this`sent
      ensures Valid()
      ensures !HasCredential(sessionToken) ==> outcome == Status(0) && sent == old(sent)
      ensures HasCredential(sessionToken) ==>
        outcome == OutcomeOf(reply) && sent == old(sent) + [PrepareGet(apiBaseUrl, sessionToken, "/look", true).value]
    {
      var response := SendGetRequest("/look", true, reply);
      match response
      case Failure(e) =>
        outcome := Status(e.statusCode);
      case Success(rep) =>
        AuthenticatedRequestKeepsDiscipline("/look", sent[|sent| - 1]);
        outcome := OutcomeOf(rep);
    }

    /** `setDoing`: POST `{"action": ...}` to `/doing`. */
    method SetDoing(action: string, reply: Reply) returns (outcome: Outcome)
      requires Valid()
      modifies this`sent
      ensures Valid()
      ensures !HasCredential(sessionToken) ==> outcome == Status(0) && sent == old(sent)
      ensures HasCredential(sessionToken) ==>
        outcome == OutcomeOf(reply) && sent == old(sent) + [PreparePost(apiBaseUrl, sessionToken, "/doing", ActionBody(action), true).value]
    {
      outcome := AuthenticatedPost("/doing", ActionBody(action), reply);
    }

    /** `useItem`: POST `{"item": ...}` to `/use`. */
    method UseItem(item: string, reply: Reply) returns (outcome: Outcome)
      requires Valid()
      modifies this`sent
      ensures Valid()
      ensures !HasCredential(sessionToken) ==> outcome == Status(0) && sent == old(sent)
      ensures HasCredential(sessionToken) ==>
        outcome == OutcomeOf(reply) && sent == old(sent) + [PreparePost(apiBaseUrl, sessionToken, "/use", ItemBody(item), true).value]
    {
      outcome := AuthenticatedPost("/use", ItemBody(item), reply);
    }
  }

  /** A login reply naming a token with no quote and no line terminator yields that token. */
  lemma IssuedTokenReadsBack(issued: string)
    requires forall c :: c in issued ==> c != '"' && !IsLineTerminator(c)
    ensures ParseSimpleJsonValue(OneField("session_token", '"', issued), "session_token") == issued
  {
    OneFieldValue("session_token", '"', issued);
  }

  /** A client that never logged in answers a move with 0 and sends nothing. */
  method MoveBeforeLogin(baseUrl: string, direction: string, reply: Reply) returns (outcome: Outcome)
    ensures outcome == Status(0)
  {
    var client := new MidsQuest(baseUrl);
    outcome := client.Move(direction, reply);
  }

  /**
   * A login answered with status 200 and a body from which the token reads
   * back, then a move: the token is stored and the move request carries it,
   * with the direction body (which `DirectionBodyFields` reads back).
   */
  method LoginReplyThenMove(baseUrl: string, username: string, password: string, loginBody: string, issued: string, direction: string, moveReply: Reply)
    returns (loginOutcome: Outcome, token: Option<string>, moveOutcome: Outcome, ghost moveRequest: Request)
    requires issued != []
    requires ParseSimpleJsonValue(loginBody, "session_token") == issued
    ensures loginOutcome == Status(200) && token == Some(issued)
    ensures moveOutcome == OutcomeOf(moveReply)
    ensures moveRequest.uri == baseUrl + "/move"
    ensures HeaderValues(moveRequest.headers, TokenHeader) == [issued]
    ensures moveRequest.body == Some(DirectionBody(direction))
  {
    var client := new MidsQuest(baseUrl);
    loginOutcome := client.Login(username, password, Response(200, loginBody));
    token := client.GetToken();
    moveOutcome := client.Move(direction, moveReply);
    moveRequest := client.sent[|client.sent| - 1];
  }

  /**
   * The exchange the client's tests walk through: a login answered with
   * status 200 and `{"session_token": "<token>"}`, then a move that carries
   * the token.
   */
  method LoginThenMove(baseUrl: string, username: string, password: string, issued: string, direction: string, moveReply: Reply)
    returns (loginOutcome: Outcome, token: Option<string>, moveOutcome: Outcome, ghost moveRequest: Request)
    requires issued != []
    requires forall c :: c in issued ==> c != '"' && !IsLineTerminator(c)
    ensures loginOutcome == Status(200) && token == Some(issued)
    ensures moveOutcome == OutcomeOf(moveReply)
    ensures HeaderValues(moveRequest.headers, TokenHeader) == [issued]
  {
    IssuedTokenReadsBack(issued);
    loginOutcome, token, moveOutcome, moveRequest :=
      LoginReplyThenMove(baseUrl, username, password, OneField("session_token", '"', issued), issued, direction, moveReply);
  }


  /**
   * A login answered 200 with a body that names no token stores the sentinel
   * as the token, and the next move sends the sentinel as its session token.
   */
  method LoginWithoutTokenInReply(baseUrl: string, username: string, password: string, body: string, direction: string, moveReply: Reply)
    returns (token: Option<string>, moveOutcome: Outcome, ghost moveRequest: Request)
    requires forall j, sp :: !IsMatch(body, "session_token", j, sp)
    ensures token == Some(NotFound)
    ensures moveOutcome == OutcomeOf(moveReply)
    ensures HeaderValues(moveRequest.headers, TokenHeader) == [NotFound]
  {
    var client := new MidsQuest(baseUrl);
    var _ := client.Login(username, password, Response(200, body));
    token := client.GetToken();
    moveOutcome := client.Move(direction, moveReply);
    moveRequest := client.sent[|client.sent| - 1];
  }

  /** A refused login stores nothing, so the next move is refused by the client itself. */
  method RefusedLogin(baseUrl: string, username: string, password: string, status: int, body: string, direction: string, moveReply: Reply)
    returns (loginOutcome: Outcome, moveOutcome: Outcome)
    requires status != 200
    ensures loginOutcome == Status(status)
    ensures moveOutcome == Status(0)
  {
    var client := new MidsQuest(baseUrl);
    loginOutcome := client.Login(username, password, Response(status, body));
    moveOutcome := client.Move(direction, moveReply);
  }
}
