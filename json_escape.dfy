/**
 * The escaper the client applies to every value it places in a request body
 * (`escapeJsonString`), a per-character description of it, and a reader of
 * JSON string literals against which its output is checked.
 */
module JsonEscape {
  import opened Wrappers
  import opened JavaText

  const Backspace: char := '\U{8}'
  const FormFeed: char := '\U{C}'

  /** The five control characters the escaper rewrites as two-character escapes. */
  predicate IsNamedControl(c: char) {
    c == Backspace || c == FormFeed || c == '\n' || c == '\r' || c == '\t'
  }

  /** `escapeJsonString` as written: seven replacements, the backslash first. */
  function EscapeJsonString(value: string): string {
    Replace(Replace(Replace(Replace(Replace(Replace(Replace(
      value, "\\", "\\\\"), "\"", "\\\""), [Backspace], "\\b"), [FormFeed], "\\f"),
      "\n", "\\n"), "\r", "\\r"), "\t", "\\t")
  }

  /** What one input character becomes in the output. */
  function EscapeChar(c: char): string {
    if c == '\\' then "\\\\"
    else if c == '"' then "\\\""
    else if c == Backspace then "\\b"
    else if c == FormFeed then "\\f"
    else if c == '\n' then "\\n"
    else if c == '\r' then "\\r"
    else if c == '\t' then "\\t"
    else [c]
  }

  /** The escaper described character by character. */
  function Escape(s: string): string
    decreases |s|
  {
    if s == [] then [] else EscapeChar(s[0]) + Escape(s[1..])
  }

  /** The per-character escaper acts on a concatenation piece by piece. */
  lemma {:induction false} EscapeAppend(a: string, b: string)
    ensures Escape(a + b) == Escape(a) + Escape(b)
    decreases |a|
  {
    if a != [] {
      assert (a + b)[0] == a[0];
      assert (a + b)[1..] == a[1..] + b;
      assert Escape(a + b) == EscapeChar(a[0]) + Escape(a[1..] + b);
      EscapeAppend(a[1..], b);
      assert Escape(a) == EscapeChar(a[0]) + Escape(a[1..]);
    } else {
      assert a + b == b;
    }
  }

  /** The replacement chain acts on a concatenation piece by piece. */
  lemma EscapeJsonStringAppend(a: string, b: string)
    ensures EscapeJsonString(a + b) == EscapeJsonString(a) + EscapeJsonString(b)
  {
    var a1, b1 := Replace(a, "\\", "\\\\"), Replace(b, "\\", "\\\\");
    ReplaceCharConcat(a, b, '\\', "\\\\");
    var a2, b2 := Replace(a1, "\"", "\\\""), Replace(b1, "\"", "\\\"");
    ReplaceCharConcat(a1, b1, '"', "\\\"");
    var a3, b3 := Replace(a2, [Backspace], "\\b"), Replace(b2, [Backspace], "\\b");
    ReplaceCharConcat(a2, b2, Backspace, "\\b");
    var a4, b4 := Replace(a3, [FormFeed], "\\f"), Replace(b3, [FormFeed], "\\f");
    ReplaceCharConcat(a3, b3, FormFeed, "\\f");
    var a5, b5 := Replace(a4, "\n", "\\n"), Replace(b4, "\n", "\\n");
    ReplaceCharConcat(a4, b4, '\n', "\\n");
    var a6, b6 := Replace(a5, "\r", "\\r"), Replace(b5, "\r", "\\r");
    ReplaceCharConcat(a5, b5, '\r', "\\r");
    ReplaceCharConcat(a6, b6, '\t', "\\t");
  }

  /** A one-character text is replaced exactly when it is the target. */
  lemma ReplaceSingle(x: char, p: char, replacement: string)
    ensures Replace([x], [p], replacement) == if x == p then replacement else [x]
  {
    ReplaceCharCons(x, [], p, replacement);
    assert [x] + [] == [x];
  }

  /** A replacement stage whose target the text does not hold leaves it alone. */
  lemma Untouched(t: string, p: char, replacement: string)
    requires p !in t
    ensures Replace(t, [p], replacement) == t
  {
    ReplaceWithoutTarget(t, [p], replacement, p);
  }

  /** The last five stages of the chain: the control characters. */
  function ControlStages(s: string): string {
    Replace(Replace(Replace(Replace(Replace(s, [Backspace], "\\b"), [FormFeed], "\\f"), "\n", "\\n"), "\r", "\\r"), "\t", "\\t")
  }

  /** The first two stages on one character: backslash and quote get escaped. */
  lemma QuoteStagesChar(c: char)
    ensures Replace(Replace([c], "\\", "\\\\"), "\"", "\\\"")
         == if c == '\\' then "\\\\" else if c == '"' then "\\\"" else [c]
  {
    ReplaceSingle(c, '\\', "\\\\");
    if c == '\\' { Untouched("\\\\", '"', "\\\""); } else { ReplaceSingle(c, '"', "\\\""); }
  }

  /** The control stages leave text without control characters alone. */
  lemma ControlStagesUntouched(e: string)
    requires Backspace !in e && FormFeed !in e && '\n' !in e && '\r' !in e && '\t' !in e
    ensures ControlStages(e) == e
  {
    Untouched(e, Backspace, "\\b");
    Untouched(e, FormFeed, "\\f");
    Untouched(e, '\n', "\\n");
    Untouched(e, '\r', "\\r");
    Untouched(e, '\t', "\\t");
  }

  /** The control stages on one character other than backslash and quote. */
  lemma ControlStagesChar(c: char)
    requires c != '\\' && c != '"'
    ensures ControlStages([c]) == EscapeChar(c)
  {
    var s3 := Replace([c], [Backspace], "\\b");
    ReplaceSingle(c, Backspace, "\\b");
    var s4 := Replace(s3, [FormFeed], "\\f");
    if c == Backspace { Untouched(s3, FormFeed, "\\f"); } else { ReplaceSingle(c, FormFeed, "\\f"); }
    var s5 := Replace(s4, "\n", "\\n");
    if c == Backspace || c == FormFeed { Untouched(s4, '\n', "\\n"); } else { ReplaceSingle(c, '\n', "\\n"); }
    var s6 := Replace(s5, "\r", "\\r");
    if c == Backspace || c == FormFeed || c == '\n' {
      Untouched(s5, '\r', "\\r");
    } else {
      ReplaceSingle(c, '\r', "\\r");
    }
    if c == Backspace || c == FormFeed || c == '\n' || c == '\r' {
      Untouched(s6, '\t', "\\t");
    } else {
      ReplaceSingle(c, '\t', "\\t");
    }
  }

  /** On one character the chain produces exactly that character's escape. */
  lemma EscapeJsonStringChar(c: char)
    ensures EscapeJsonString([c]) == EscapeChar(c)
  {
    var s2 := Replace(Replace([c], "\\", "\\\\"), "\"", "\\\"");
    assert EscapeJsonString([c]) == ControlStages(s2);
    QuoteStagesChar(c);
    if c == '\\' || c == '"' {
      ControlStagesUntouched(s2);
    } else {
      ControlStagesChar(c);
    }
  }

  /**
   * Because the backslash is replaced first, the chain of replacements is the
   * per-character map: no later stage rewrites what an earlier one produced.
   */
  lemma {:induction false} EscapeJsonStringIsPerCharacter(s: string)
    ensures EscapeJsonString(s) == Escape(s)
    decreases |s|
  {
    if s == [] {
      assert EscapeJsonString(s) == [];
    } else {
      assert s == [s[0]] + s[1..];
      EscapeJsonStringAppend([s[0]], s[1..]);
      EscapeJsonStringChar(s[0]);
      EscapeJsonStringIsPerCharacter(s[1..]);
    }
  }

  /** The character a two-character JSON escape `\c` stands for (section 7 of RFC 8259). */
  function Unescaped(c: char): Option<char> {
    if c == '"' then Some('"')
    else if c == '\\' then Some('\\')
    else if c == '/' then Some('/')
    else if c == 'b' then Some(Backspace)
    else if c == 'f' then Some(FormFeed)
    else if c == 'n' then Some('\n')
    else if c == 'r' then Some('\r')
    else if c == 't' then Some('\t')
    else None
  }

  /**
   * Reads the inside of a JSON string literal, starting just after its opening
   * quote: decodes escapes up to the first unescaped quote and returns the
   * decoded value and the text after that closing quote.
   */
  function DecodeString(s: string): (r: Option<(string, string)>)
    ensures r.Some? ==> |r.value.1| < |s|
    decreases |s|
  {
    if s == [] then None
    else if s[0] == '"' then Some(([], s[1..]))
    else if s[0] == '\\' then
      if |s| == 1 then None
      else match Unescaped(s[1])
        case None => None
        case Some(c) =>
          match DecodeString(s[2..])
          case None => None
          case Some((v, rest)) => Some(([c] + v, rest))
    else
      match DecodeString(s[1..])
      case None => None
      case Some((v, rest)) => Some(([s[0]] + v, rest))
  }

  /** Reading one escaped character: the decoder yields that character, then reads on. */
  lemma DecodeEscapeChar(c: char, tail: string)
    ensures DecodeString(EscapeChar(c) + tail)
         == match DecodeString(tail)
            case None => None
            case Some((v, rest)) => Some(([c] + v, rest))
  {
    var e := EscapeChar(c);
    var u := e + tail;
    if |e| == 2 {
      assert u[0] == '\\' && |u| >= 2 && Unescaped(u[1]) == Some(c);
      assert u[2..] == tail;
    } else {
      assert e == [c] && c != '\\' && c != '"';
      assert u[0] == c && u[1..] == tail;
    }
  }

  /**
   * Round trip: the escaped value followed by a quote reads back as the value,
   * and the quote that ends it is the one after the escaped text, never one
   * inside it.
   */
  lemma {:induction false} DecodeEscaped(s: string, rest: string)
    ensures DecodeString(Escape(s) + "\"" + rest) == Some((s, rest))
    decreases |s|
  {
    if s == [] {
      assert Escape(s) + "\"" + rest == ['"'] + rest;
    } else {
      var tail := Escape(s[1..]) + "\"" + rest;
      assert Escape(s) + "\"" + rest == EscapeChar(s[0]) + tail;
      DecodeEscaped(s[1..], rest);
      DecodeEscapeChar(s[0], tail);
      assert s == [s[0]] + s[1..];
    }
  }

  /** The escaper's input, read back from its output followed by a closing quote. */
  lemma DecodeEscapeJsonString(s: string, rest: string)
    ensures DecodeString(EscapeJsonString(s) + "\"" + rest) == Some((s, rest))
  {
    EscapeJsonStringIsPerCharacter(s);
    DecodeEscaped(s, rest);
  }

  /** A character strict JSON accepts raw inside a string literal. */
  predicate IsUnescapedJsonChar(c: char) {
    c >= ' '
  }

  /** A character the escaper makes safe for strict JSON: not a control character, or one of the five it names. */
  predicate IsEscapable(c: char) {
    IsUnescapedJsonChar(c) || IsNamedControl(c)
  }

  /** Text is strict JSON string content exactly when both of its pieces are. */
  lemma StrictConcat(e: string, t: string)
    ensures (forall i :: 0 <= i < |e + t| ==> IsUnescapedJsonChar((e + t)[i]))
        <==> (forall i :: 0 <= i < |e| ==> IsUnescapedJsonChar(e[i])) && (forall i :: 0 <= i < |t| ==> IsUnescapedJsonChar(t[i]))
  {
    forall i | 0 <= i < |e| ensures (e + t)[i] == e[i] { }
    forall i | 0 <= i < |t| ensures (e + t)[|e| + i] == t[i] { }
  }

  /** One character's escape is strict JSON exactly when the character is escapable. */
  lemma EscapeCharStrict(c: char)
    ensures (forall i :: 0 <= i < |EscapeChar(c)| ==> IsUnescapedJsonChar(EscapeChar(c)[i])) <==> IsEscapable(c)
  {
    var e := EscapeChar(c);
    if c == '\\' || c == '"' || IsNamedControl(c) {
      assert |e| == 2 && e[0] == '\\' && e[1] >= ' ';
    } else {
      assert e == [c] && e[0] == c;
    }
  }

  /**
   * The output holds no raw control character exactly when the input's only
   * control characters are the five named ones: any other control character
   * is passed through verbatim.
   */
  lemma {:induction false} EscapeIsStrictJsonIff(s: string)
    ensures (forall i :: 0 <= i < |Escape(s)| ==> IsUnescapedJsonChar(Escape(s)[i]))
        <==> (forall i :: 0 <= i < |s| ==> IsEscapable(s[i]))
    decreases |s|
  {
    if s != [] {
      var e, t := EscapeChar(s[0]), Escape(s[1..]);
      EscapeIsStrictJsonIff(s[1..]);
      assert Escape(s) == e + t;
      StrictConcat(e, t);
      EscapeCharStrict(s[0]);
      assert (forall i :: 0 <= i < |s| ==> IsEscapable(s[i]))
         <==> IsEscapable(s[0]) && (forall i :: 0 <= i < |s[1..]| ==> IsEscapable(s[1..][i])) by {
        forall i | 0 <= i < |s[1..]| ensures s[1..][i] == s[i + 1] { }
      }
    }
  }

  /** None of the five named control characters survives escaping. */
  lemma {:induction false} EscapeRemovesNamedControls(s: string)
    ensures forall i :: 0 <= i < |Escape(s)| ==> !IsNamedControl(Escape(s)[i])
    decreases |s|
  {
    if s != [] {
      var e, t := EscapeChar(s[0]), Escape(s[1..]);
      EscapeRemovesNamedControls(s[1..]);
      assert Escape(s) == e + t;
      forall i | 0 <= i < |e + t| ensures !IsNamedControl((e + t)[i]) {
        if i >= |e| { assert (e + t)[i] == t[i - |e|]; }
      }
    }
  }
}
