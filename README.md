# MidsQuest client, modelled in Dafny

`MidsQuest` is the Java client of the Mids Quest text-adventure HTTP API. A
client object holds the API's base URL and, after a successful login, a
session token. Its public operations are:

- `createUser` (POST `/user`) and `login` (POST `/login`) send the
  credentials as JSON and need no token.
- `move` (POST `/move`), `look` (GET `/look`), `setDoing` (POST `/doing`) and
  `useItem` (POST `/use`) need the token. They return 0 without contacting
  the server when the client holds none or holds an empty one.

Every operation returns the HTTP status code of the reply. The request bodies
are written by hand with a small string escaper (`escapeJsonString`). The
token is read out of the login reply with a regular expression
(`parseSimpleJsonValue`).

The project is organised as follows:

| file | module | what it holds |
|---|---|---|
| `wrappers.dfy` | `Wrappers` | `Option` and `Result` |
| `java_text.dfy` | `JavaText` | `String.replace` with a literal target, and its laws |
| `json_escape.dfy` | `JsonEscape` | `escapeJsonString` as written (seven chained replacements); a per-character reference escaper; a reader for JSON string literals (`DecodeString`) as its inverse; strict-JSON validity of the output |
| `request_body.dfy` | `RequestBody` | the four request bodies, and a small JSON object reader that reads each body back into its fields |
| `json_extract.dfy` | `JsonExtract` | `parseSimpleJsonValue` as written (see below), which the client uses; the corrected reading `ParseJsonValue` described under Findings; and how the two readings relate |
| `requests.dfy` | `Requests` | building the POST and GET requests: URI, headers, body, and the "not logged in" error raised before anything is sent |
| `client.dfy` | `MidsQuestClient` | the class `MidsQuest` with its token and the history of sent requests; one method per public operation; scenarios that follow the client's unit tests |

Reading of the regular expression
`"key"\s*:\s*(".*?"|\[.*?\]|\{.*?\})` (flag `CASE_INSENSITIVE`, method
`find`):

- `IsMatch` says declaratively what a match at position `i` is.
- `Find` is a scanner that returns the leftmost match and is proved equal to
  that description.
- `\s` is java.util.regex's set: space, tab, line feed, vertical tab, form
  feed and carriage return.
- `.` matches anything but the line terminators `\n`, `\r`, U+0085, U+2028
  and U+2029.
- Case is ignored for ASCII letters.
- The reluctant `.*?` stops at the first closing character.
- The key is taken as literal text.

The HTTP client is not modelled. Each operation takes as a parameter the
`Reply` the HTTP client would hand back: a response with a status code and a
body, or an I/O failure (`TransportError`, which the operation lets through
as `Aborted`). The ghost field `sent` records every request handed to the
HTTP client. The class invariant `Valid` states the token discipline:

- sign-up and login requests carry no `session-token` header;
- every other request carries exactly one, and it is not empty.

## Model

| member | source | states |
|---|---|---|
| JavaText.Replace | MidsQuest.java:321-327 | `String.replace` with a literal target: scanning left to right, every occurrence of the target that does not overlap an earlier one is replaced, and the rest is copied; also used by the unescaping on line 308 |
| JavaText.ReplaceWithoutTarget | MidsQuest.java:308 | replacing a target that cannot occur in the text (one of its characters is absent) leaves the text unchanged |
| JavaText.ReplaceCharConcat | MidsQuest.java:321-327 | replacing a one-character target in a concatenation is the concatenation of the replaced parts |
| JsonEscape.EscapeJsonString | MidsQuest.java:320-328 | `escapeJsonString` as written: backslash, quote, backspace, form feed, line feed, carriage return and tab replaced in that order, each by its two-character escape |
| JsonEscape.EscapeJsonStringAppend | MidsQuest.java:320-328 | the seven-replacement escaper distributes over concatenation |
| JsonEscape.EscapeJsonStringChar | MidsQuest.java:320-328 | on one character the chained replacements give exactly that character's escape: `\\`, `\"`, `\b`, `\f`, `\n`, `\r`, `\t`, or the character itself |
| JsonEscape.EscapeJsonStringIsPerCharacter | MidsQuest.java:320-328 | the chained replacements equal the character-by-character escaper, so no replacement re-escapes the output of an earlier one |
| JsonEscape.EscapeAppend | MidsQuest.java:320-328 | the reference escaper distributes over concatenation |
| JsonEscape.DecodeEscaped | MidsQuest.java:320-328 | a JSON string reader reads the reference escaper's output, then a quote, back as the original text and the rest |
| JsonEscape.DecodeEscapeJsonString | MidsQuest.java:320-328 | round trip: reading back `escapeJsonString(s)` followed by a closing quote gives `s` exactly, for every `s` |
| JsonEscape.EscapeIsStrictJsonIff | MidsQuest.java:320-328 | the escaped text is free of raw control characters (valid inside a strict JSON string) if and only if the input holds no control character other than the five the escaper names |
| JsonEscape.EscapeRemovesNamedControls | MidsQuest.java:323-327 | no backspace, form feed, line feed, carriage return or tab survives escaping |
| RequestBody.CredentialsBody | MidsQuest.java:64-65 | the sign-up body `{"username": "...", "password": "..."}` with both values escaped; `login` builds the same body on lines 92-93 |
| RequestBody.DirectionBody | MidsQuest.java:131 | the `move` body `{"direction": "..."}` with the direction escaped |
| RequestBody.ActionBody | MidsQuest.java:181 | the `setDoing` body `{"action": "..."}` with the action escaped |
| RequestBody.ItemBody | MidsQuest.java:208 | the `useItem` body `{"item": "..."}` with the item escaped |
| RequestBody.OneFieldBody | MidsQuest.java:131 | a one-field body `{"name": "<escaped value>"}` reads back as the single field with the raw value |
| RequestBody.DirectionBodyFields | MidsQuest.java:131 | the move body reads back as exactly `[("direction", direction)]` |
| RequestBody.ActionBodyFields | MidsQuest.java:181 | the set-activity body reads back as exactly `[("action", action)]` |
| RequestBody.ItemBodyFields | MidsQuest.java:208 | the use-item body reads back as exactly `[("item", item)]` |
| RequestBody.TwoFieldObject | MidsQuest.java:64-65 | an object of two members written the way the bodies write them reads back as the two fields, in order |
| RequestBody.CredentialsBodyFields | MidsQuest.java:64-65 | the sign-up and login body reads back as `username` then `password`, each with its raw value, whatever characters they hold |
| JsonExtract.KeyMatchesFrom | MidsQuest.java:297-298 | the key comparison holds if and only if every character agrees with the key's, ASCII case ignored |
| JsonExtract.SkipSpaces | MidsQuest.java:297 | greedy `\s*`: everything skipped is whitespace, and the stopping character is not |
| JsonExtract.FindClose | MidsQuest.java:297 | reluctant `.*?` then the closer: the first closer reached without crossing a line terminator, and none when no such closer exists |
| JsonExtract.LeadAt | MidsQuest.java:297 | the scan of the expression's lead at a position: quote, key ignoring ASCII case, quote, spaces, colon, spaces; when it succeeds, the colon lies before the opening character, which is a quote, `[` or `{` |
| JsonExtract.LeadAtIsLead | MidsQuest.java:297-298 | the scan finds `"key"`, spaces, `:`, spaces and an opening character at position `i` if and only if the declarative lead holds there, with the same colon and opening positions |
| JsonExtract.MatchAt | MidsQuest.java:296-300 | the scan at position `i` gives a span if and only if the whole expression matches there with that span |
| JsonExtract.Find | MidsQuest.java:300-302 | `find`: the leftmost match at or after the start, with no match before it; none when no match exists |
| JsonExtract.MatchIsDeterminate | MidsQuest.java:297 | at most one match starts at a given position |
| JsonExtract.Capture | MidsQuest.java:302-303 | there is no group exactly when the expression matches nowhere in the text |
| JsonExtract.ParseSimpleJsonValue | MidsQuest.java:293-315 | when the expression matches nowhere, the result is the sentinel "Could not parse JSON" |
| JsonExtract.UnquotedValue | MidsQuest.java:306-308 | inside a quoted match there is no quote, so the `\"` replacement changes nothing |
| JsonExtract.StripQuotes | MidsQuest.java:305-311 | the captured value with its surrounding quotes removed and `\"` turned into `"` when it starts and ends with a quote, and unchanged otherwise |
| JsonExtract.StrippedMatch | MidsQuest.java:305-311 | the group as handed back is the text between the quotes for a quoted value, and the bracketed text for an array or object |
| JsonExtract.LeftmostMatchWins | MidsQuest.java:302-311 | the result is the value of the leftmost match, whatever follows it |
| JsonExtract.OneFieldValue | MidsQuest.java:302-311 | on `{"key": <value>}` whose inside holds no closer and no line terminator: a quoted value comes back without its quotes, an array or object with its brackets |
| JsonExtract.LoginReplyToken | MidsQuestTest.java:53-65 | on `{"session_token": "abc123"}` both readings give `abc123` |
| JsonExtract.ArrayValueKept | MidsQuest.java:310-311 | an array value comes back as the array text, brackets included |
| JsonExtract.SentinelIsAmbiguous | MidsQuest.java:108-114 | a quoted value spelling "Could not parse JSON" matches and yet yields the sentinel, so the sentinel does not mean "no match" |
| JsonExtract.QuotedValueCutAtFirstQuote | MidsQuest.java:297-308 | as written, a quoted value is cut at its first `"`, escaped or not |
| JsonExtract.EscapedQuoteIsCutShort | MidsQuest.java:306-308 | as written, `{"session_token": "a\"b"}` gives `a\`, not `a"b` |
| JsonExtract.ReadQuoted | MidsQuest.java:306-308 | corrected reading of a quoted value: when it yields a value, it stops at a quote |
| JsonExtract.ReadQuotedFindsClose | MidsQuest.java:297 | the corrected reading of a quoted value yields one only where the expression's quoted alternative finds its closing quote |
| JsonExtract.ReadQuotedWithoutBackslash | MidsQuest.java:297-308 | where the text up to the expression's closing quote holds no backslash, the corrected reading reads exactly that text and stops at that quote |
| JsonExtract.ReadValueAtFindsMatch | MidsQuest.java:300-302 | the corrected reading yields a value at a position only where the expression as written matches there |
| JsonExtract.ReadValueAtAgreesWithMatch | MidsQuest.java:302-311 | where the match's value is an array, an object or a quoted value with no backslash, the corrected reading gives exactly the value as written |
| JsonExtract.FindValue | MidsQuest.java:300-302 | corrected search: the leftmost position at or after the start where a value is read, with that value and none before it; nothing exactly when no position yields one |
| JsonExtract.ParseJsonValue | MidsQuest.java:293-315 | corrected reading: the sentinel when the expression matches nowhere |
| JsonExtract.CorrectedLeftmostWins | MidsQuest.java:300-311 | the corrected result is the value read at the leftmost position that yields one |
| JsonExtract.ReadingsAgreeWithoutBackslash | MidsQuest.java:293-315 | where the leftmost match's value holds no backslash, the corrected reading and the reading as written give that same value: the correction changes only escape pairs |
| JsonExtract.ReadingsAgreeOnOneField | MidsQuest.java:293-315 | on `{"key": "inner"}` whose inner text holds no quote, backslash or line terminator, both readings give the inner text |
| JsonExtract.EscapeOnlyQuotes | MidsQuest.java:320-328 | on a value with no backslash and no named control character, `escapeJsonString` only puts a backslash before each quote |
| JsonExtract.ReadEscapedQuotes | MidsQuest.java:306-308 | the corrected reading takes the quote-escaped text of a value, followed by a quote, back to the value, stopping at that quote |
| JsonExtract.ParseJsonValueRoundTrip | MidsQuest.java:306-308 | round trip under the corrected reading: a value with no backslash, named control character or line terminator, escaped by `escapeJsonString` and put in `{"key": "..."}`, reads back exactly, quotes included |
| Requests.HeaderValues | MidsQuest.java:238-242 | the values of a header are taken only from headers of that name, never more of them than headers, and every header of that name gives its value |
| Requests.AuthHeaders | MidsQuest.java:244-251 | fails with status 0 and the "Not logged in." message exactly when authentication is required and the token is missing or empty; otherwise adds the token under `session-token` when required, and nothing when not |
| Requests.PreparePost | MidsQuest.java:235-254 | the POST to base URL + endpoint, with the body, one `Content-Type` and one `accept` header of `application/json`, and the token header exactly when authentication is required, and no other header; the error before sending exactly when authentication is required and the token is missing or empty |
| Requests.PrepareGet | MidsQuest.java:265-283 | the GET to base URL + endpoint, with no body, no content type, one `accept` header, and the token header as for POST, and no other header; the same error |
| MidsQuestClient.OutcomeOf | MidsQuest.java:76-77 | an operation returns the reply's status code, and lets an I/O failure through |
| MidsQuestClient.MidsQuest.constructor | MidsQuest.java:45-48 | a new client holds the base URL and no token, and has sent nothing |
| MidsQuestClient.MidsQuest.GetToken | MidsQuest.java:35-38 | returns the stored token |
| MidsQuestClient.MidsQuest.SendPostRequest | MidsQuest.java:235-254 | hands the prepared request to the HTTP client and returns its reply, or returns the error and sends nothing |
| MidsQuestClient.MidsQuest.SendGetRequest | MidsQuest.java:265-283 | the same for GET |
| MidsQuestClient.MidsQuest.PublicRequestKeepsDiscipline | MidsQuest.java:69 | a sign-up or login request carries no token header |
| MidsQuestClient.MidsQuest.AuthenticatedRequestKeepsDiscipline | MidsQuest.java:244-251 | a request to any other endpoint that carries the client's token keeps the token discipline |
| MidsQuestClient.MidsQuest.CreateUser | MidsQuest.java:62-78 | sends exactly the credentials POST to `/user` without a token, returns the reply's status, keeps the token and the discipline |
| MidsQuestClient.MidsQuest.Login | MidsQuest.java:90-117 | sends the credentials POST to `/login`; on status 200 stores whatever `parseSimpleJsonValue` as written reads for `session_token`, the sentinel included; on any other status or failure keeps the old token |
| MidsQuestClient.MidsQuest.AuthenticatedPost | MidsQuest.java:129-144 | without a token, status 0 and nothing sent; with one, the reply's status and exactly the prepared POST sent |
| MidsQuestClient.MidsQuest.Move | MidsQuest.java:129-144 | `move` as above, with the body `{"direction": ...}` to `/move` |
| MidsQuestClient.MidsQuest.Look | MidsQuest.java:155-167 | `look`: without a token, status 0 and nothing sent; with one, the reply's status and exactly the prepared GET to `/look` sent |
| MidsQuestClient.MidsQuest.SetDoing | MidsQuest.java:179-194 | `setDoing` as `move`, with the body `{"action": ...}` to `/doing` |
| MidsQuestClient.MidsQuest.UseItem | MidsQuest.java:206-221 | `useItem` as `move`, with the body `{"item": ...}` to `/use` |
| MidsQuestClient.IssuedTokenReadsBack | MidsQuest.java:106-113 | under the reading as written, a login reply `{"session_token": "<token>"}` whose token holds no quote and no line terminator yields that token |
| MidsQuestClient.MoveBeforeLogin | MidsQuestTest.java:70-73 | a fresh client answers `move` with 0 |
| MidsQuestClient.LoginReplyThenMove | MidsQuest.java:107-144 | after a 200 login whose body the reading as written reads as a non-empty token, the token is stored, and the next move goes to `/move` carrying exactly that token and the direction body |
| MidsQuestClient.LoginThenMove | MidsQuestTest.java:52-66 | login answered 200 with `{"session_token": "<token>"}`: status 200, the stored token is the issued one, and the following move carries it |
| MidsQuestClient.LoginWithoutTokenInReply | MidsQuest.java:107-114 | a 200 login whose body the expression matches nowhere stores the sentinel, and the next move sends the sentinel as its token |
| MidsQuestClient.RefusedLogin | MidsQuest.java:107-116 | a login answered with any status but 200 returns that status and stores nothing, so the next move returns 0 |

## Left out

- Sending over the network (`httpClient.send`) is not modelled: the reply is a parameter. `IOException` and `InterruptedException` are not told apart: either is the single value `TransportError`.
- `URI.create` rejecting a malformed base URL or endpoint is not modelled, and neither is `HttpRequest.Builder.uri` rejecting a URI whose scheme is not `http` or `https`. The URI is the plain concatenation, and both failures are unchecked exceptions the operations do not catch.
- `HttpRequest.Builder.header` rejecting a header value that is not a valid field value (section 3.2 of RFC 7230) is not modelled. The token goes into `session-token` on MidsQuest.java:250 and 279 as the login reply gave it, so a token holding a control character (say `a` U+0001 `b`, which the expression reads since `.` matches U+0001) makes every later authenticated operation throw an unchecked `IllegalArgumentException` in the source. The model sends that request and returns the reply's status.
- MidsQuestClient.LoginThenMove and MidsQuestClient.LoginReplyThenMove: also stated for tokens that are not valid header values, where the source's move throws instead of sending (see the line above).
- Printing of replies and warnings to standard output and standard error is not modelled. That includes the warning a login prints when it stores the sentinel. It does not affect any result.
- The exception's message lives in the `ApiException` value. The operations return only its status code, as the source does.
- The interactive command loop in `main` is not part of this model. Neither is the test server in `ServerModel.java`, nor the mocking scaffolding of the tests.
- Null arguments are not modelled: every parameter of the model is a string, never null. In the source, a null username, password, direction, action or item reaches `escapeJsonString`, whose first `replace` (MidsQuest.java:321) throws a `NullPointerException` on lines 64, 92, 131, 181 or 208, before `sendPostRequest` and its token check run. Nothing catches it, so on a fresh client `move(null)` throws where MidsQuestClient.MoveBeforeLogin promises 0 for every direction the model can express.
- Text is modelled as sequences of Unicode scalar values. Java strings are UTF-16 code units, so a character outside the Basic Multilingual Plane counts as two units there and as one here. The escaper and the scanner treat all such characters alike, so only lengths differ. A Java string can also hold an unpaired surrogate, which no Dafny `char` can; such strings are outside the model.
- JsonExtract.ParseSimpleJsonValue: the key is taken as literal text. The source splices the key into the pattern unescaped, so a key holding pattern metacharacters would behave differently there. Every caller passes `session_token`, which reads as itself.
- JsonEscape.DecodeString: the reader used as the escaper's inverse does not decode `\uXXXX` escapes. It rejects them. The escaper never produces them.
- JsonExtract.ParseJsonValue: the corrected reading undoes only `\"`, as the replacement on MidsQuest.java:308 does. Every other backslash pair stays as written, so it is not a full JSON string reader.
- JsonExtract.ParseJsonValueRoundTrip: stated only for values with no backslash, no named control character and no line terminator. `escapeJsonString` writes those as backslash pairs other than `\"`, which the intended reading keeps as written.
- JavaText.Replace: replacement with an empty target is not modelled (`requires |target| > 0`). Every call in the source uses a non-empty literal target.
- RequestBody.ParseObject reads only the subset of JSON the bodies use: an object of string members. It is the independent reader that the body lemmas use, not a model of the server.

## Findings

| source | as written | input that shows it | evidently intended | confidence | as-written member | corrected member |
|---|---|---|---|---|---|---|
| MidsQuest.java:297-308 | the quoted alternative `".*?"` ends at the first `"`, so an escaped quote ends the value and the `\"` replacement on line 308 can never apply | `{"session_token": "a\"b"}` yields `a\` | a backslash escapes the character after it, so the value ends at the first quote no backslash escapes, and `\"` becomes `"`: `a"b` | not executed | JsonExtract.QuotedValueCutAtFirstQuote, JsonExtract.EscapedQuoteIsCutShort | JsonExtract.ParseJsonValue, JsonExtract.ParseJsonValueRoundTrip |

`MidsQuestClient.MidsQuest.Login` stores the token read by
`parseSimpleJsonValue` as written, as the source does. The corrected reading
differs from it only on values that hold a backslash
(`JsonExtract.ReadingsAgreeWithoutBackslash`).
