/**
 * The request bodies the client builds with `String.format`, and a reader of
 * flat JSON objects whose values are all strings, used to state what the
 * bodies mean: each reads back as its fields, in order, with the caller's
 * raw values.
 */
module RequestBody {
  import opened Wrappers
  import opened JsonEscape

  /** A field of a flat JSON object: its name and its (decoded) string value. */
  type Field = (string, string)

  /** Body of `POST /user` and `POST /login`. */
  function CredentialsBody(username: string, password: string): string {
    "{\"username\": \"" + EscapeJsonString(username) + "\", \"password\": \"" + EscapeJsonString(password) + "\"}"
  }

  /** Body of `POST /move`. */
  function DirectionBody(direction: string): string {
    "{\"direction\": \"" + EscapeJsonString(direction) + "\"}"
  }

  /** Body of `POST /doing`. */
  function ActionBody(action: string): string {
    "{\"action\": \"" + EscapeJsonString(action) + "\"}"
  }

  /** Body of `POST /use`. */
  function ItemBody(item: string): string {
    "{\"item\": \"" + EscapeJsonString(item) + "\"}"
  }

  /** Insignificant whitespace between JSON tokens (section 2 of RFC 8259). */
  predicate IsJsonSpace(c: char) {
    c == ' ' || c == '\t' || c == '\n' || c == '\r'
  }

  /** The text after its leading whitespace. */
  function SkipWs(s: string): (r: string)
    ensures |r| <= |s|
    ensures r != [] ==> !IsJsonSpace(r[0])
    decreases |s|
  {
    if s != [] && IsJsonSpace(s[0]) then SkipWs(s[1..]) else s
  }

  /** Reads a whole text as one JSON object whose member values are all strings. */
  function ParseObject(s: string): Option<seq<Field>> {
    var t := SkipWs(s);
    if t == [] || t[0] != '{' then None
    else
      var u := SkipWs(t[1..]);
      if u != [] && u[0] == '}' then
        if SkipWs(u[1..]) == [] then Some([]) else None
      else ParseMembers(u)
  }

  /** Reads `"name" : "value"` and then what follows it, up to the end of the object. */
  function ParseMembers(s: string): Option<seq<Field>>
    decreases |s|, 1
  {
    if s == [] || s[0] != '"' then None
    else match DecodeString(s[1..])
      case None => None
      case Some((name, r1)) =>
        var r2 := SkipWs(r1);
        if r2 == [] || r2[0] != ':' then None
        else
          var r3 := SkipWs(r2[1..]);
          if r3 == [] || r3[0] != '"' then None
          else match DecodeString(r3[1..])
            case None => None
            case Some((value, r4)) => AfterMember((name, value), r4)
  }

  /** After a member: either `}` closes the object, or `,` introduces the next member. */
  function AfterMember(f: Field, s: string): Option<seq<Field>>
    decreases |s|, 0
  {
    var r := SkipWs(s);
    if r == [] then None
    else if r[0] == '}' then
      if SkipWs(r[1..]) == [] then Some([f]) else None
    else if r[0] == ',' then
      match ParseMembers(SkipWs(r[1..]))
      case None => None
      case Some(fs) => Some([f] + fs)
    else None
  }

  lemma SkipWsNone(s: string)
    requires s != [] && !IsJsonSpace(s[0])
    ensures SkipWs(s) == s
  {
  }

  lemma SkipWsOneSpace(s: string)
    requires s != [] && !IsJsonSpace(s[0])
    ensures SkipWs([' '] + s) == s
  {
    assert ([' '] + s)[1..] == s;
    SkipWsNone(s);
  }

  /** A JSON string literal holding `x`, written the way the bodies write their values. */
  function Quoted(x: string): string {
    "\"" + Escape(x) + "\""
  }

  /** A member `"name": "value"`, written the way the bodies write it. */
  function Member(name: string, value: string): string {
    Quoted(name) + ": " + Quoted(value)
  }

  /** A quoted string followed by more text reads back as the string and that text. */
  lemma DecodeQuoted(x: string, rest: string)
    ensures var s := Quoted(x) + rest;
      s != [] && s[0] == '"' && DecodeString(s[1..]) == Some((x, rest))
  {
    var s := Quoted(x) + rest;
    assert s[1..] == Escape(x) + "\"" + rest;
    DecodeEscaped(x, rest);
  }

  /** The separator `: ` before a quoted value is skipped up to the value's quote. */
  lemma ColonSpace(r3: string)
    requires r3 != [] && r3[0] == '"'
    ensures var r1 := ": " + r3;
      SkipWs(r1) == r1 && r1 != [] && r1[0] == ':' && SkipWs(r1[1..]) == r3
  {
    var r1 := ": " + r3;
    SkipWsNone(r1);
    assert r1[1..] == [' '] + r3;
    SkipWsOneSpace(r3);
  }

  /** One step of `ParseMembers`, from the facts about each token it reads. */
  lemma ParseMembersStep(s: string, name: string, r1: string, r3: string, value: string, rest: string)
    requires s != [] && s[0] == '"' && DecodeString(s[1..]) == Some((name, r1))
    requires SkipWs(r1) == r1 && r1 != [] && r1[0] == ':'
    requires SkipWs(r1[1..]) == r3 && r3 != [] && r3[0] == '"'
    requires DecodeString(r3[1..]) == Some((value, rest))
    ensures ParseMembers(s) == AfterMember((name, value), rest)
  {
  }

  /** Three pieces and a tail, regrouped to the right. */
  lemma Regroup3(a: string, b: string, c: string, d: string)
    ensures a + b + c + d == a + (b + (c + d))
  {
  }

  /** A member written the way the bodies write it reads back as its name and raw value. */
  lemma ParseMember(name: string, value: string, rest: string)
    ensures ParseMembers(Member(name, value) + rest) == AfterMember((name, value), rest)
  {
    var r3 := Quoted(value) + rest;
    var r1 := ": " + r3;
    var s := Quoted(name) + r1;
    Regroup3(Quoted(name), ": ", Quoted(value), rest);
    DecodeQuoted(name, r1);
    DecodeQuoted(value, rest);
    ColonSpace(r3);
    ParseMembersStep(s, name, r1, r3, value, rest);
  }

  /** A member followed by `, ` and a further member continues with that member. */
  lemma AfterMemberComma(f: Field, name: string, value: string, rest: string)
    ensures AfterMember(f, ", " + (Member(name, value) + rest))
         == match ParseMembers(Member(name, value) + rest) case None => None case Some(fs) => Some([f] + fs)
  {
    var more := Member(name, value) + rest;
    assert more != [] && more[0] == '"';
    var t := ", " + more;
    SkipWsNone(t);
    assert t[1..] == [' '] + more;
    SkipWsOneSpace(more);
  }

  /** Escaping leaves a field name made of plain letters unchanged. */
  lemma {:induction false} PlainName(name: string)
    requires forall i :: 0 <= i < |name| ==> 'a' <= name[i] <= 'z'
    ensures Escape(name) == name
    decreases |name|
  {
    if name != [] {
      assert EscapeChar(name[0]) == [name[0]];
      PlainName(name[1..]);
      assert name == [name[0]] + name[1..];
    }
  }

  /** An object that opens with `{` directly followed by a member is read member by member. */
  lemma ObjectOfMembers(inner: string)
    requires inner != [] && inner[0] == '"'
    ensures ParseObject("{" + inner) == ParseMembers(inner)
  {
    var t := "{" + inner;
    SkipWsNone(t);
    assert t[1..] == inner;
    SkipWsNone(inner);
  }

  /** A closing brace that ends the text ends the object after the last member. */
  lemma AfterMemberClose(f: Field)
    ensures AfterMember(f, "}") == Some([f])
  {
    SkipWsNone("}");
    assert "}"[1..] == [];
  }

  lemma OneFieldShape(name: string, e: string)
    ensures "{\"" + name + "\": \"" + e + "\"}" == "{" + (("\"" + name + "\"" + ": " + ("\"" + e + "\"")) + "}")
  {
  }

  /** A one-field body reads back as that field. */
  lemma OneFieldBody(name: string, value: string)
    requires forall i :: 0 <= i < |name| ==> 'a' <= name[i] <= 'z'
    ensures ParseObject("{\"" + name + "\": \"" + EscapeJsonString(value) + "\"}") == Some([(name, value)])
  {
    PlainName(name);
    EscapeJsonStringIsPerCharacter(value);
    var m := Member(name, value);
    OneFieldShape(name, EscapeJsonString(value));
    assert m == "\"" + name + "\"" + ": " + ("\"" + EscapeJsonString(value) + "\"");
    ObjectOfMembers(m + "}");
    ParseMember(name, value, "}");
    AfterMemberClose((name, value));
  }

  lemma DirectionBodyShape(direction: string)
    ensures DirectionBody(direction) == "{\"" + "direction" + "\": \"" + EscapeJsonString(direction) + "\"}"
  {
  }

  /** The move body reads back as the single field `direction` holding the raw direction. */
  lemma DirectionBodyFields(direction: string)
    ensures ParseObject(DirectionBody(direction)) == Some([("direction", direction)])
  {
    DirectionBodyShape(direction);
    OneFieldBody("direction", direction);
  }

  lemma ActionBodyShape(action: string)
    ensures ActionBody(action) == "{\"" + "action" + "\": \"" + EscapeJsonString(action) + "\"}"
  {
  }

  /** The set-activity body reads back as the single field `action`. */
  lemma ActionBodyFields(action: string)
    ensures ParseObject(ActionBody(action)) == Some([("action", action)])
  {
    ActionBodyShape(action);
    OneFieldBody("action", action);
  }

  lemma ItemBodyShape(item: string)
    ensures ItemBody(item) == "{\"" + "item" + "\": \"" + EscapeJsonString(item) + "\"}"
  {
  }

  /** The use-item body reads back as the single field `item`. */
  lemma ItemBodyFields(item: string)
    ensures ParseObject(ItemBody(item)) == Some([("item", item)])
  {
    ItemBodyShape(item);
    OneFieldBody("item", item);
  }

  /** Regrouping a concatenation of eleven pieces. */
  lemma Regroup(o: string, qn: string, cs: string, q: string, eu: string, cm: string, qp: string, ep: string, cl: string)
    ensures o + qn + cs + q + eu + (q + cm + qp + cs + q) + ep + (q + cl)
         == o + ((qn + cs + (q + eu + q)) + (cm + ((qp + cs + (q + ep + q)) + cl)))
  {
  }

  lemma CredentialsShape(username: string, password: string)
    ensures CredentialsBody(username, password)
         == "{" + (("\"" + "username" + "\"" + ": " + ("\"" + EscapeJsonString(username) + "\""))
                  + (", " + (("\"" + "password" + "\"" + ": " + ("\"" + EscapeJsonString(password) + "\"")) + "}")))
  {
    var eu, ep := EscapeJsonString(username), EscapeJsonString(password);
    var qn, qp := "\"" + "username" + "\"", "\"" + "password" + "\"";
    assert "{\"username\": \"" == "{" + qn + ": " + "\"";
    assert "\", \"password\": \"" == "\"" + ", " + qp + ": " + "\"";
    assert "\"}" == "\"" + "}";
    Regroup("{", qn, ": ", "\"", eu, ", ", qp, ep, "}");
  }

  /** Member text, whatever follows it, starts with the quote of the member's name. */
  lemma MemberStartsWithQuote(name: string, value: string, rest: string)
    ensures Member(name, value) + rest != [] && (Member(name, value) + rest)[0] == '"'
  {
  }

  /** Two members written the way the bodies write them, then `}`, read back as the two fields. */
  lemma TwoMembers(n1: string, v1: string, n2: string, v2: string)
    ensures ParseMembers(Member(n1, v1) + (", " + (Member(n2, v2) + "}"))) == Some([(n1, v1), (n2, v2)])
  {
    var tail := Member(n2, v2) + "}";
    assert ParseMembers(tail) == Some([(n2, v2)]) by {
      ParseMember(n2, v2, "}");
      AfterMemberClose((n2, v2));
    }
    assert AfterMember((n1, v1), ", " + tail) == Some([(n1, v1)] + [(n2, v2)]) by {
      AfterMemberComma((n1, v1), n2, v2, "}");
    }
    ParseMember(n1, v1, ", " + tail);
    assert [(n1, v1)] + [(n2, v2)] == [(n1, v1), (n2, v2)];
  }

  /** A two-field object written the way the bodies write it reads back as its two fields, in order. */
  lemma TwoFieldObject(n1: string, v1: string, n2: string, v2: string)
    ensures ParseObject("{" + (Member(n1, v1) + (", " + (Member(n2, v2) + "}"))))
         == Some([(n1, v1), (n2, v2)])
  {
    var inner := Member(n1, v1) + (", " + (Member(n2, v2) + "}"));
    MemberStartsWithQuote(n1, v1, ", " + (Member(n2, v2) + "}"));
    ObjectOfMembers(inner);
    TwoMembers(n1, v1, n2, v2);
  }

  /** With a plain name and an escaped value, the member text is the literal the bodies contain. */
  lemma MemberText(name: string, value: string)
    requires forall i :: 0 <= i < |name| ==> 'a' <= name[i] <= 'z'
    ensures Member(name, value) == "\"" + name + "\"" + ": " + ("\"" + EscapeJsonString(value) + "\"")
  {
    PlainName(name);
    EscapeJsonStringIsPerCharacter(value);
  }

  /** The credentials body reads back as `username` then `password`, with the raw values. */
  lemma CredentialsBodyFields(username: string, password: string)
    ensures ParseObject(CredentialsBody(username, password))
         == Some([("username", username), ("password", password)])
  {
    CredentialsShape(username, password);
    MemberText("username", username);
    MemberText("password", password);
    TwoFieldObject("username", username, "password", password);
  }
}
