/**
 * `parseSimpleJsonValue`: the first value found after a key in a response
 * body, by the regular expression
 *     "key"\s*:\s*(".*?"|\[.*?\]|\{.*?\})
 * applied case-insensitively with `find()`. The expression is written here as
 * a hand scanner (`MatchAt`, `Find`) and, independently, as a declarative
 * description of one match (`IsMatch`); the scanner is proved to find exactly
 * the leftmost match the description allows.
 *
 * Reading the expression: the `\s*` before `:` must stop at the colon and the
 * `\s*` after it must stop at the value's opening character, since neither is
 * whitespace, so neither can give back characters; the reluctant `.*?` stops
 * at the first closing character; `.` matches any character but a line
 * terminator; without UNICODE_CASE, case folding is ASCII only. The key is
 * taken as literal text: the source splices it into the expression unescaped,
 * and every caller passes a key of letters and `_`, which reads as itself.
 */
module JsonExtract {
  import opened Wrappers
  import opened JavaText
  import opened JsonEscape

  /** What `parseSimpleJsonValue` returns when nothing matches. */
  const NotFound: string := "Could not parse JSON"

  /** ASCII-only lower-casing, as CASE_INSENSITIVE compares without UNICODE_CASE. */
  function AsciiLower(c: char): char {
    if 'A' <= c <= 'Z' then (c as int + 32) as char else c
  }

  /** `\s` of java.util.regex: space, tab, line feed, vertical tab, form feed, carriage return. */
  predicate IsRegexSpace(c: char) {
    c == ' ' || c == '\t' || c == '\n' || c == '\U{B}' || c == '\U{C}' || c == '\r'
  }

  /** The characters `.` does not match: java.util.regex's line terminators. */
  predicate IsLineTerminator(c: char) {
    c == '\n' || c == '\r' || c == '\U{85}' || c == '\U{2028}' || c == '\U{2029}'
  }

  /** The three ways a captured value can open. */
  predicate IsOpener(c: char) {
    c == '"' || c == '[' || c == '{'
  }

  /** The character that closes a value opened by `open`. */
  function Closer(open: char): char {
    if open == '[' then ']' else if open == '{' then '}' else '"'
  }

  /** Where a match puts its colon and the first and last character of its captured value. */
  datatype Span = Span(colon: nat, open: nat, close: nat)

  /** No closer and no line terminator in `s[from..to]`. */
  ghost predicate RunClear(s: string, from: nat, to: nat, closer: char)
    requires from <= to <= |s|
  {
    forall t :: from <= t < to ==> s[t] != closer && !IsLineTerminator(s[t])
  }

  /**
   * The expression's lead matches at `i`: `"key"` ignoring ASCII case,
   * whitespace, `:` at `colon`, whitespace, and an opening character at `open`.
   */
  ghost predicate IsLead(s: string, key: string, i: nat, colon: nat, open: nat) {
    var q := i + |key| + 1;
    && q < colon < open < |s|
    && s[i] == '"'
    && (forall t :: 0 <= t < |key| ==> AsciiLower(s[i + 1 + t]) == AsciiLower(key[t]))
    && s[q] == '"'
    && (forall p :: q < p < colon ==> IsRegexSpace(s[p]))
    && s[colon] == ':'
    && (forall p :: colon < p < open ==> IsRegexSpace(s[p]))
    && IsOpener(s[open])
  }

  /**
   * The whole expression matches at `i` with the value spanning `sp`: the
   * lead, then characters that are neither the closer nor a line terminator,
   * then the closer.
   */
  ghost predicate IsMatch(s: string, key: string, i: nat, sp: Span) {
    && IsLead(s, key, i, sp.colon, sp.open)
    && sp.open < sp.close < |s|
    && s[sp.close] == Closer(s[sp.open])
    && RunClear(s, sp.open + 1, sp.close, Closer(s[sp.open]))
  }

  /** Compares `key[k..]` with the text at `at + k`, ignoring ASCII case. */
  function KeyMatchesFrom(s: string, at: nat, key: string, k: nat): (b: bool)
    requires at + |key| <= |s| && k <= |key|
    ensures b <==> forall t :: k <= t < |key| ==> AsciiLower(s[at + t]) == AsciiLower(key[t])
    decreases |key| - k
  {
    k == |key| || (AsciiLower(s[at + k]) == AsciiLower(key[k]) && KeyMatchesFrom(s, at, key, k + 1))
  }

  /** `\s*` taken greedily from `p`: the first position at or after `p` that is not whitespace. */
  function SkipSpaces(s: string, p: nat): (r: nat)
    requires p <= |s|
    ensures p <= r <= |s|
    ensures forall t :: p <= t < r ==> IsRegexSpace(s[t])
    ensures r < |s| ==> !IsRegexSpace(s[r])
    decreases |s| - p
  {
    if p < |s| && IsRegexSpace(s[p]) then SkipSpaces(s, p + 1) else p
  }

  /**
   * The reluctant `.*?` followed by the closer, from `p`: at each position the
   * closer is tried first, then `.` takes one more character.
   */
  function FindClose(s: string, p: nat, closer: char): (r: Option<nat>)
    requires p <= |s|
    ensures r.Some? ==> p <= r.value < |s| && s[r.value] == closer && RunClear(s, p, r.value, closer)
    ensures r.None? ==> forall e {:trigger RunClear(s, p, e, closer)} :: p <= e < |s| && s[e] == closer ==> !RunClear(s, p, e, closer)
    decreases |s| - p
  {
    if p == |s| then None
    else if s[p] == closer then Some(p)
    else if IsLineTerminator(s[p]) then None
    else
      RunClearFromNext(s, p, closer);
      FindClose(s, p + 1, closer)
  }

  /** A clear run from `p` past `p` is a clear run from `p + 1`. */
  lemma RunClearFromNext(s: string, p: nat, closer: char)
    requires p < |s|
    ensures forall e {:trigger RunClear(s, p, e, closer)} :: p < e <= |s| && RunClear(s, p, e, closer) ==> RunClear(s, p + 1, e, closer)
  {
  }

  /** The lead tried at position `i`: where its colon and its opening character are. */
  function LeadAt(s: string, key: string, i: nat): (r: Option<(nat, nat)>)
    ensures r.Some? ==> r.value.0 < r.value.1 < |s| && IsOpener(s[r.value.1])
  {
    var q := i + |key| + 1;
    if q >= |s| then None
    else if s[i] != '"' || !KeyMatchesFrom(s, i + 1, key, 0) || s[q] != '"' then None
    else
      var c := SkipSpaces(s, q + 1);
      if c == |s| || s[c] != ':' then None
      else
        var o := SkipSpaces(s, c + 1);
        if o == |s| || !IsOpener(s[o]) then None
        else Some((c, o))
  }

  /** `LeadAt` finds the lead exactly where the expression's lead matches. */
  lemma LeadAtIsLead(s: string, key: string, i: nat)
    ensures forall c: nat, o: nat :: IsLead(s, key, i, c, o) <==> LeadAt(s, key, i) == Some((c, o))
  {
  }

  /** The whole expression tried at position `i`. */
  function MatchAt(s: string, key: string, i: nat): (r: Option<Span>)
    ensures forall sp :: IsMatch(s, key, i, sp) <==> r == Some(sp)
  {
    LeadAtIsLead(s, key, i);
    match LeadAt(s, key, i)
    case None => None
    case Some((c, o)) =>
      match FindClose(s, o + 1, Closer(s[o]))
      case None => None
      case Some(e) => Some(Span(c, o, e))
  }

  /** `Matcher.find()` from position `from`: the first position where the expression matches. */
  function Find(s: string, key: string, from: nat): (r: Option<(nat, Span)>)
    ensures r.Some? ==> from <= r.value.0 && IsMatch(s, key, r.value.0, r.value.1)
    ensures r.Some? ==> forall j, sp :: from <= j < r.value.0 ==> !IsMatch(s, key, j, sp)
    ensures r.None? ==> forall j, sp :: from <= j ==> !IsMatch(s, key, j, sp)
    decreases |s| - from
  {
    if from >= |s| then None
    else match MatchAt(s, key, from)
      case Some(sp) => Some((from, sp))
      case None => Find(s, key, from + 1)
  }

  /**
   * The value of a match as `parseSimpleJsonValue` hands it back: a quoted
   * string loses its quotes, an array or object is kept with its brackets.
   */
  function ValueOf(s: string, sp: Span): string
    requires sp.open < sp.close < |s|
  {
    if s[sp.open] == '"' then s[sp.open + 1..sp.close] else s[sp.open..sp.close + 1]
  }

  /**
   * The captured group as handed back: a group in quotes loses them and each
   * `\"` in it becomes `"`; any other group is returned as it is.
   */
  function StripQuotes(value: string): string
    requires |value| >= 2
  {
    if value[0] == '"' && value[|value| - 1] == '"' then
      Replace(value[1..|value| - 1], "\\\"", "\"")
    else
      value
  }

  /** The first match's group, stripped; None when nothing matches. */
  function Capture(json: string, key: string): (r: Option<string>)
    ensures r.None? <==> forall j, sp :: !IsMatch(json, key, j, sp)
  {
    match Find(json, key, 0)
    case None => None
    case Some((_, sp)) => Some(StripQuotes(json[sp.open..sp.close + 1]))
  }

  /** Inside a quoted match there is no `"`, so undoing `\"` changes nothing. */
  lemma UnquotedValue(json: string, key: string, i: nat, sp: Span)
    requires IsMatch(json, key, i, sp) && json[sp.open] == '"'
    ensures Replace(json[sp.open + 1..sp.close], "\\\"", "\"") == ValueOf(json, sp)
  {
    var inner := json[sp.open + 1..sp.close];
    assert forall t :: 0 <= t < |inner| ==> inner[t] == json[sp.open + 1 + t];
    ReplaceWithoutTarget(inner, "\\\"", "\"", '"');
  }

  /**
   * `parseSimpleJsonValue(json, key)`: the value after the first occurrence
   * of `"key":`, or the fixed sentinel when there is none.
   */
  function ParseSimpleJsonValue(json: string, key: string): (r: string)
    ensures (forall j, sp :: !IsMatch(json, key, j, sp)) ==> r == NotFound
  {
    match Capture(json, key)
    case None => NotFound
    case Some(value) => value
  }

  /** At most one match starts at a given position. */
  lemma MatchIsDeterminate(s: string, key: string, i: nat, sp1: Span, sp2: Span)
    requires IsMatch(s, key, i, sp1) && IsMatch(s, key, i, sp2)
    ensures sp1 == sp2
  {
    assert MatchAt(s, key, i) == Some(sp1);
  }

  /** The leftmost match decides the result. */
  lemma LeftmostMatchWins(json: string, key: string, i: nat, sp: Span)
    requires IsMatch(json, key, i, sp)
    requires forall j: nat, sp' :: j < i ==> !IsMatch(json, key, j, sp')
    ensures ParseSimpleJsonValue(json, key) == ValueOf(json, sp)
  {
    var r := Find(json, key, 0);
    assert r.Some?;
    var (k, sp') := r.value;
    assert IsMatch(json, key, k, sp');
    assert k == i;
    MatchIsDeterminate(json, key, i, sp, sp');
    CaptureOfFind(json, key, i, sp);
  }

  /** What `Capture` makes of the match `Find` returns. */
  lemma CaptureOfFind(json: string, key: string, i: nat, sp: Span)
    requires Find(json, key, 0) == Some((i, sp))
    ensures Capture(json, key) == Some(ValueOf(json, sp))
  {
    StrippedMatch(json, key, i, sp);
  }

  /** Stripping a matched group gives the value of the match. */
  lemma StrippedMatch(json: string, key: string, i: nat, sp: Span)
    requires IsMatch(json, key, i, sp)
    ensures StripQuotes(json[sp.open..sp.close + 1]) == ValueOf(json, sp)
  {
    var value := json[sp.open..sp.close + 1];
    if json[sp.open] == '"' {
      assert |value| == sp.close - sp.open + 1;
      assert value[|value| - 1] == '"';
      assert forall t :: 1 <= t < |value| - 1 ==> value[t] == json[sp.open + t];
      assert value[1..|value| - 1] == json[sp.open + 1..sp.close];
      UnquotedValue(json, key, i, sp);
    }
  }

  /** A body holding one field, `{"key": <value>}`, its value opening with `open`. */
  function OneField(key: string, open: char, inner: string): string {
    "{\"" + key + "\": " + [open] + inner + [Closer(open)] + "}"
  }

  /** `s` is laid out as `OneField(key, open, inner)`. */
  ghost predicate OneFieldLaidOut(s: string, key: string, open: char, inner: string) {
    var q := |key| + 2;
    && |s| == q + 6 + |inner|
    && s[0] == '{' && s[1] == '"'
    && (forall t :: 0 <= t < |key| ==> s[2 + t] == key[t])
    && s[q] == '"' && s[q + 1] == ':' && s[q + 2] == ' ' && s[q + 3] == open
    && (forall t :: 0 <= t < |inner| ==> s[q + 4 + t] == inner[t])
    && s[q + 4 + |inner|] == Closer(open)
    && s[q + 5 + |inner|] == '}'
  }

  lemma OneFieldLayout(key: string, open: char, inner: string)
    ensures OneFieldLaidOut(OneField(key, open, inner), key, open, inner)
  {
  }

  /** The lead matches such a text at its first quote, whatever its value holds. */
  lemma LaidOutLead(s: string, key: string, open: char, inner: string)
    requires OneFieldLaidOut(s, key, open, inner)
    requires IsOpener(open)
    ensures IsLead(s, key, 1, |key| + 3, |key| + 5)
  {
    assert forall t :: 0 <= t < |key| ==> AsciiLower(s[1 + 1 + t]) == AsciiLower(key[t]) by {
      forall t | 0 <= t < |key|
        ensures AsciiLower(s[1 + 1 + t]) == AsciiLower(key[t])
      {
        assert s[2 + t] == key[t];
      }
    }
  }

  /** The whole expression matches such a text at its first quote. */
  lemma LaidOutMatch(s: string, key: string, open: char, inner: string)
    requires OneFieldLaidOut(s, key, open, inner)
    requires IsOpener(open)
    requires forall c :: c in inner ==> c != Closer(open) && !IsLineTerminator(c)
    ensures IsMatch(s, key, 1, Span(|key| + 3, |key| + 5, |key| + 6 + |inner|))
  {
    var q := |key| + 2;
    var sp := Span(q + 1, q + 3, q + 4 + |inner|);
    LaidOutLead(s, key, open, inner);
    assert forall p :: sp.open < p < sp.close ==> s[p] != Closer(s[sp.open]) && !IsLineTerminator(s[p]) by {
      forall p | sp.open < p < sp.close
        ensures s[p] != Closer(s[sp.open]) && !IsLineTerminator(s[p])
      {
        assert s[p] == inner[p - q - 4];
        assert inner[p - q - 4] in inner;
      }
    }
  }

  /** The value the match carries. */
  lemma LaidOutValue(s: string, key: string, open: char, inner: string)
    requires OneFieldLaidOut(s, key, open, inner)
    ensures var sp := Span(|key| + 3, |key| + 5, |key| + 6 + |inner|);
      ValueOf(s, sp) == if open == '"' then inner else [open] + inner + [Closer(open)]
  {
    var sp := Span(|key| + 3, |key| + 5, |key| + 6 + |inner|);
    if open == '"' {
      assert s[sp.open + 1..sp.close] == inner;
    } else {
      assert s[sp.open..sp.close + 1] == [open] + inner + [Closer(open)];
    }
  }

  /** What the expression reads from a text laid out as `OneField(key, open, inner)`. */
  lemma LaidOutParse(s: string, key: string, open: char, inner: string)
    requires OneFieldLaidOut(s, key, open, inner)
    requires IsOpener(open)
    requires forall c :: c in inner ==> c != Closer(open) && !IsLineTerminator(c)
    ensures ParseSimpleJsonValue(s, key) == if open == '"' then inner else [open] + inner + [Closer(open)]
  {
    var sp := Span(|key| + 3, |key| + 5, |key| + 6 + |inner|);
    LaidOutMatch(s, key, open, inner);
    LaidOutValue(s, key, open, inner);
    LeftmostMatchWins(s, key, 1, sp);
  }

  /**
   * A body holding one field reads back as that field's value, whatever the
   * key and the value, so long as the value's text holds no closer and no
   * line terminator.
   */
  lemma OneFieldValue(key: string, open: char, inner: string)
    requires IsOpener(open)
    requires forall c :: c in inner ==> c != Closer(open) && !IsLineTerminator(c)
    ensures ParseSimpleJsonValue(OneField(key, open, inner), key)
         == if open == '"' then inner else [open] + inner + [Closer(open)]
  {
    OneFieldLayout(key, open, inner);
    LaidOutParse(OneField(key, open, inner), key, open, inner);
  }

  /**
   * The login reply of the client's test suite, `{"session_token": "abc123"}`,
   * yields its token under either reading.
   */
  lemma LoginReplyToken()
    ensures ParseSimpleJsonValue(OneField("session_token", '"', "abc123"), "session_token") == "abc123"
    ensures ParseJsonValue(OneField("session_token", '"', "abc123"), "session_token") == "abc123"
  {
    ReadingsAgreeOnOneField("session_token", "abc123");
  }

  /** An array value, as in `{"detail": ["err1","err2"]}`, comes back whole, brackets included. */
  lemma ArrayValueKept()
    ensures ParseSimpleJsonValue(OneField("detail", '[', "\"err1\",\"err2\""), "detail") == "[" + "\"err1\",\"err2\"" + "]"
  {
    OneFieldValue("detail", '[', "\"err1\",\"err2\"");
  }

  /**
   * The sentinel is also what a match on a value spelling the sentinel
   * returns, so a caller cannot tell that reply from one without the key.
   */
  lemma SentinelIsAmbiguous(key: string)
    ensures IsMatch(OneField(key, '"', NotFound), key, 1, Span(|key| + 3, |key| + 5, |key| + 26))
    ensures ParseSimpleJsonValue(OneField(key, '"', NotFound), key) == NotFound
  {
    OneFieldLayout(key, '"', NotFound);
    LaidOutMatch(OneField(key, '"', NotFound), key, '"', NotFound);
    LaidOutParse(OneField(key, '"', NotFound), key, '"', NotFound);
  }

  /** In a quoted value the match closes at the first quote. */
  lemma LaidOutCut(s: string, key: string, pre: string, post: string)
    requires OneFieldLaidOut(s, key, '"', pre + "\"" + post)
    requires forall c :: c in pre ==> c != '"' && !IsLineTerminator(c)
    ensures IsMatch(s, key, 1, Span(|key| + 3, |key| + 5, |key| + 6 + |pre|))
    ensures ValueOf(s, Span(|key| + 3, |key| + 5, |key| + 6 + |pre|)) == pre
  {
    var q := |key| + 2;
    var inner := pre + "\"" + post;
    var sp := Span(q + 1, q + 3, q + 4 + |pre|);
    LaidOutLead(s, key, '"', inner);
    assert s[sp.close] == '"' by {
      assert s[q + 4 + |pre|] == inner[|pre|];
    }
    assert forall p :: sp.open < p < sp.close ==> s[p] == pre[p - q - 4] by {
      forall p | sp.open < p < sp.close
        ensures s[p] == pre[p - q - 4]
      {
        assert s[p] == inner[p - q - 4];
      }
    }
    assert RunClear(s, sp.open + 1, sp.close, '"') by {
      forall p | sp.open < p < sp.close
        ensures s[p] != '"' && !IsLineTerminator(s[p])
      {
        assert pre[p - q - 4] in pre;
      }
    }
    assert s[sp.open + 1..sp.close] == pre;
  }

  /**
   * As written, a quoted value ends at the first quote, escaped or not, so the
   * `\"` the unescaping step looks for can never be inside it and whatever
   * follows the first quote is lost.
   */
  lemma QuotedValueCutAtFirstQuote(key: string, pre: string, post: string)
    requires forall c :: c in pre ==> c != '"' && !IsLineTerminator(c)
    ensures ParseSimpleJsonValue(OneField(key, '"', pre + "\"" + post), key) == pre
  {
    var s := OneField(key, '"', pre + "\"" + post);
    OneFieldLayout(key, '"', pre + "\"" + post);
    LaidOutCut(s, key, pre, post);
    LeftmostMatchWins(s, key, 1, Span(|key| + 3, |key| + 5, |key| + 6 + |pre|));
  }

  /** The token the server writes as `a\"b` comes back as `a\`. */
  lemma EscapedQuoteIsCutShort()
    ensures ParseSimpleJsonValue(OneField("session_token", '"', "a\\" + "\"" + "b"), "session_token") == "a\\"
  {
    QuotedValueCutAtFirstQuote("session_token", "a\\", "b");
  }

  /** What an escape pair `\c` reads as: `\"` is a quote, any other pair stays as written. */
  function EscapePair(c: char): string {
    if c == '"' then "\"" else ['\\', c]
  }

  /**
   * The inside of a quoted value from `p`, read the way the unescaping step
   * intends: a backslash and the character after it form a pair, so an
   * escaped quote does not end the value, and the first quote outside a pair
   * does. `\"` becomes `"` and every other pair stays as written, as the
   * unescaping step leaves it. A line terminator ends the reading with
   * nothing, as it ends the expression's `.*?`. Gives the value and the
   * position of its closing quote.
   */
  function ReadQuoted(s: string, p: nat): (r: Option<(string, nat)>)
    requires p <= |s|
    ensures r.Some? ==> p <= r.value.1 < |s| && s[r.value.1] == '"'
    decreases |s| - p
  {
    if p == |s| || IsLineTerminator(s[p]) then None
    else if s[p] == '"' then Some(([], p))
    else if s[p] == '\\' then
      if p + 1 == |s| || IsLineTerminator(s[p + 1]) then None
      else match ReadQuoted(s, p + 2)
        case None => None
        case Some((v, e)) => Some((EscapePair(s[p + 1]) + v, e))
    else match ReadQuoted(s, p + 1)
      case None => None
      case Some((v, e)) => Some(([s[p]] + v, e))
  }

  /**
   * Against the expression's quoted alternative: the corrected reading finds
   * a value only where the expression finds a closing quote.
   */
  lemma {:induction false} ReadQuotedFindsClose(s: string, p: nat)
    requires p <= |s|
    ensures ReadQuoted(s, p).Some? ==> FindClose(s, p, '"').Some?
    decreases |s| - p
  {
    if p < |s| && !IsLineTerminator(s[p]) && s[p] != '"' {
      assert FindClose(s, p, '"') == FindClose(s, p + 1, '"');
      if s[p] != '\\' {
        ReadQuotedFindsClose(s, p + 1);
      } else if p + 1 < |s| && !IsLineTerminator(s[p + 1]) && s[p + 1] != '"' {
        ReadQuotedFindsClose(s, p + 2);
        assert FindClose(s, p + 1, '"') == FindClose(s, p + 2, '"');
      }
    }
  }

  /**
   * Where the expression's quoted value holds no backslash, the corrected
   * reading reads the same text and stops at the same quote.
   */
  lemma {:induction false} ReadQuotedWithoutBackslash(s: string, p: nat)
    requires p <= |s|
    ensures FindClose(s, p, '"').Some? && (forall t :: p <= t < FindClose(s, p, '"').value ==> s[t] != '\\')
      ==> ReadQuoted(s, p) == Some((s[p..FindClose(s, p, '"').value], FindClose(s, p, '"').value))
    decreases |s| - p
  {
    if p < |s| && !IsLineTerminator(s[p]) && s[p] != '"' && s[p] != '\\' {
      assert FindClose(s, p, '"') == FindClose(s, p + 1, '"');
      ReadQuotedWithoutBackslash(s, p + 1);
      PlainStep(s, p);
    } else if p < |s| && s[p] == '"' {
      assert FindClose(s, p, '"') == Some(p);
      assert s[p..p] == [];
    }
  }

  /** One plain character in front of a quoted value that holds no backslash. */
  lemma PlainStep(s: string, p: nat)
    requires p < |s| && !IsLineTerminator(s[p]) && s[p] != '"' && s[p] != '\\'
    requires FindClose(s, p + 1, '"').Some? && (forall t :: p + 1 <= t < FindClose(s, p + 1, '"').value ==> s[t] != '\\')
      ==> ReadQuoted(s, p + 1) == Some((s[p + 1..FindClose(s, p + 1, '"').value], FindClose(s, p + 1, '"').value))
    requires FindClose(s, p, '"') == FindClose(s, p + 1, '"')
    ensures FindClose(s, p, '"').Some? && (forall t :: p <= t < FindClose(s, p, '"').value ==> s[t] != '\\')
      ==> ReadQuoted(s, p) == Some((s[p..FindClose(s, p, '"').value], FindClose(s, p, '"').value))
  {
    var f := FindClose(s, p, '"');
    if f.Some? && (forall t :: p <= t < f.value ==> s[t] != '\\') {
      var e := f.value;
      assert ReadQuoted(s, p + 1) == Some((s[p + 1..e], e));
      assert s[p..e] == [s[p]] + s[p + 1..e];
    }
  }

  /** The expression's value contains no backslash, or is not a quoted value. */
  predicate NoEscapeIn(s: string, sp: Span)
    requires sp.open < sp.close <= |s|
  {
    s[sp.open] != '"' || forall t :: sp.open < t < sp.close ==> s[t] != '\\'
  }

  /**
   * Corrected reading of the value at `i`: after the same lead, a quoted value
   * is read by `ReadQuoted`; an array or object is read as before.
   */
  function ReadValueAt(s: string, key: string, i: nat): Option<string>
  {
    var lead := LeadAt(s, key, i);
    if lead.None? then None
    else
      var o := lead.value.1;
      if s[o] == '"' then
        var q := ReadQuoted(s, o + 1);
        if q.None? then None else Some(q.value.0)
      else
        var f := FindClose(s, o + 1, Closer(s[o]));
        if f.None? then None else Some(s[o..f.value + 1])
  }

  /** The corrected reading finds a value only where the expression as written matches. */
  lemma ReadValueAtFindsMatch(s: string, key: string, i: nat)
    ensures ReadValueAt(s, key, i).Some? ==> MatchAt(s, key, i).Some? && IsMatch(s, key, i, MatchAt(s, key, i).value)
  {
    var lead := LeadAt(s, key, i);
    if lead.Some? && ReadValueAt(s, key, i).Some? {
      var o := lead.value.1;
      ReadValueAtNeedsClose(s, key, i, o);
      assert MatchAt(s, key, i) == Some(Span(lead.value.0, o, FindClose(s, o + 1, Closer(s[o])).value));
    }
  }

  /** A value read after the lead at `i` ends where the expression finds its closer. */
  lemma ReadValueAtNeedsClose(s: string, key: string, i: nat, o: nat)
    requires LeadAt(s, key, i).Some? && LeadAt(s, key, i).value.1 == o
    requires ReadValueAt(s, key, i).Some?
    ensures o < |s| && FindClose(s, o + 1, Closer(s[o])).Some?
  {
    if s[o] == '"' {
      assert ReadQuoted(s, o + 1).Some?;
      ReadQuotedFindsClose(s, o + 1);
    }
  }

  /**
   * Where the match of the expression as written holds no backslash in a
   * quoted value, the corrected reading gives exactly the match's value.
   */
  lemma ReadValueAtAgreesWithMatch(s: string, key: string, i: nat)
    ensures MatchAt(s, key, i).Some? && NoEscapeIn(s, MatchAt(s, key, i).value)
      ==> ReadValueAt(s, key, i) == Some(ValueOf(s, MatchAt(s, key, i).value))
  {
    var lead := LeadAt(s, key, i);
    if lead.Some? {
      var c, o := lead.value.0, lead.value.1;
      var f := FindClose(s, o + 1, Closer(s[o]));
      if f.Some? {
        var e := f.value;
        assert MatchAt(s, key, i) == Some(Span(c, o, e));
        if s[o] == '"' && NoEscapeIn(s, Span(c, o, e)) {
          ReadQuotedWithoutBackslash(s, o + 1);
          assert ReadQuoted(s, o + 1) == Some((s[o + 1..e], e));
        }
      }
    }
  }

  /**
   * The corrected reading at the leftmost position at or after `from` where it
   * yields a value, with that position; nothing when no position does.
   */
  function FindValue(s: string, key: string, from: nat): (r: Option<(nat, string)>)
    ensures r.Some? ==> from <= r.value.0 && ReadValueAt(s, key, r.value.0) == Some(r.value.1)
    ensures r.Some? ==> forall k: nat :: from <= k < r.value.0 ==> ReadValueAt(s, key, k).None?
    ensures r.None? ==> forall j: nat :: from <= j ==> ReadValueAt(s, key, j).None?
    decreases |s| - from
  {
    if from >= |s| then
      NothingPastTheEnd(s, key);
      None
    else
      var here := ReadValueAt(s, key, from);
      if here.Some? then Some((from, here.value))
      else
        var r := FindValue(s, key, from + 1);
        NoValueHere(s, key, from, r);
        r
  }

  /** Where nothing is read at `from`, what holds of a search from `from + 1` holds from `from`. */
  lemma NoValueHere(s: string, key: string, from: nat, r: Option<(nat, string)>)
    requires ReadValueAt(s, key, from).None?
    requires r.Some? ==> from + 1 <= r.value.0
    requires r.Some? ==> forall k: nat :: from + 1 <= k < r.value.0 ==> ReadValueAt(s, key, k).None?
    requires r.None? ==> forall j: nat :: from + 1 <= j ==> ReadValueAt(s, key, j).None?
    ensures r.Some? ==> forall k: nat :: from <= k < r.value.0 ==> ReadValueAt(s, key, k).None?
    ensures r.None? ==> forall j: nat :: from <= j ==> ReadValueAt(s, key, j).None?
  {
  }

  /** No value is read from a position at or past the end of the text. */
  lemma NothingPastTheEnd(s: string, key: string)
    ensures forall j: nat :: |s| <= j ==> ReadValueAt(s, key, j).None?
  {
  }

  /** `parseSimpleJsonValue` with the quoted value read by `ReadQuoted`. */
  function ParseJsonValue(json: string, key: string): (r: string)
    ensures (forall j, sp :: !IsMatch(json, key, j, sp)) ==> r == NotFound
  {
    match FindValue(json, key, 0)
    case None => NotFound
    case Some((j, value)) =>
      ReadValueAtFindsMatch(json, key, j);
      value
  }

  /** The corrected reading returns the value at the leftmost position that yields one. */
  lemma CorrectedLeftmostWins(json: string, key: string, i: nat, value: string)
    requires ReadValueAt(json, key, i) == Some(value)
    requires forall k: nat :: k < i ==> ReadValueAt(json, key, k).None?
    ensures ParseJsonValue(json, key) == value
  {
    var r := FindValue(json, key, 0);
    assert r.Some?;
    assert r.value.0 == i;
  }

  /**
   * Wherever the leftmost match's value holds no backslash, the corrected
   * reading and the reading as written give the same value: the correction
   * changes nothing but the handling of escape pairs.
   */
  lemma ReadingsAgreeWithoutBackslash(json: string, key: string, i: nat, sp: Span)
    requires IsMatch(json, key, i, sp)
    requires forall j: nat, sp' :: j < i ==> !IsMatch(json, key, j, sp')
    requires NoEscapeIn(json, sp)
    ensures ParseJsonValue(json, key) == ValueOf(json, sp)
    ensures ParseSimpleJsonValue(json, key) == ValueOf(json, sp)
  {
    LeftmostMatchWins(json, key, i, sp);
    forall k: nat | k < i
      ensures ReadValueAt(json, key, k).None?
    {
      ReadValueAtFindsMatch(json, key, k);
    }
    assert MatchAt(json, key, i) == Some(sp);
    ReadValueAtAgreesWithMatch(json, key, i);
    CorrectedLeftmostWins(json, key, i, ValueOf(json, sp));
  }

  /** On `{"key": "inner"}` with no quote, backslash or line terminator in `inner`, both readings give `inner`. */
  lemma ReadingsAgreeOnOneField(key: string, inner: string)
    requires forall c :: c in inner ==> c != '"' && c != '\\' && !IsLineTerminator(c)
    ensures ParseJsonValue(OneField(key, '"', inner), key) == inner
    ensures ParseSimpleJsonValue(OneField(key, '"', inner), key) == inner
  {
    OneFieldLayout(key, '"', inner);
    LaidOutReadingsAgree(OneField(key, '"', inner), key, inner);
  }

  /** Both readings of a text laid out as `OneField(key, '"', inner)`. */
  lemma LaidOutReadingsAgree(s: string, key: string, inner: string)
    requires OneFieldLaidOut(s, key, '"', inner)
    requires forall c :: c in inner ==> c != '"' && c != '\\' && !IsLineTerminator(c)
    ensures ParseJsonValue(s, key) == inner
    ensures ParseSimpleJsonValue(s, key) == inner
  {
    var sp := Span(|key| + 3, |key| + 5, |key| + 6 + |inner|);
    LaidOutMatch(s, key, '"', inner);
    LaidOutValue(s, key, '"', inner);
    LaidOutNoEscape(s, key, inner);
    assert forall j: nat, sp' :: j < 1 ==> !IsMatch(s, key, j, sp') by {
      assert s[0] != '"';
    }
    ReadingsAgreeWithoutBackslash(s, key, 1, sp);
  }

  /** A laid-out quoted value with no backslash in it holds no escape pair. */
  lemma LaidOutNoEscape(s: string, key: string, inner: string)
    requires OneFieldLaidOut(s, key, '"', inner)
    requires forall c :: c in inner ==> c != '\\'
    ensures NoEscapeIn(s, Span(|key| + 3, |key| + 5, |key| + 6 + |inner|))
  {
    var sp := Span(|key| + 3, |key| + 5, |key| + 6 + |inner|);
    forall t | sp.open < t < sp.close
      ensures s[t] != '\\'
    {
      assert s[t] == inner[t - |key| - 6];
      assert inner[t - |key| - 6] in inner;
    }
  }

  /** The text after the opening quote of `OneField(key, '"', inner)`. */
  lemma LaidOutRest(s: string, key: string, inner: string)
    requires OneFieldLaidOut(s, key, '"', inner)
    ensures s[|key| + 6..] == inner + ['"', '}']
  {
    var q := |key| + 2;
    assert forall t :: 0 <= t < |inner| ==> s[q + 4 + t] == inner[t];
  }

  /** No lead matches at the opening brace of a laid-out text. */
  lemma NothingAtTheBrace(s: string, key: string, open: char, inner: string)
    requires OneFieldLaidOut(s, key, open, inner)
    ensures forall k: nat :: k < 1 ==> ReadValueAt(s, key, k).None?
  {
    assert LeadAt(s, key, 0).None?;
  }

  /**
   * The client's escaper on a value with no backslash and no named control:
   * each quote gains a backslash, every other character stays as it is.
   */
  function QuoteEscaped(v: string): (r: string)
    ensures |r| >= |v|
  {
    if v == [] then [] else (if v[0] == '"' then ['\\', '"'] else [v[0]]) + QuoteEscaped(v[1..])
  }

  /** On a value with no backslash and no named control, the escaper only escapes quotes. */
  lemma {:induction false} EscapeOnlyQuotes(v: string)
    requires forall k :: 0 <= k < |v| ==> v[k] != '\\' && !IsNamedControl(v[k])
    ensures Escape(v) == QuoteEscaped(v)
    decreases |v|
  {
    if v != [] {
      EscapeHead(v);
      EscapeOnlyQuotes(v[1..]);
    }
  }

  /** A value whose only escapes are for quotes reads back from its escaped text. */
  lemma {:induction false} ReadEscapedQuotes(s: string, p: nat, v: string, tail: string)
    requires p <= |s| && s[p..] == QuoteEscaped(v) + tail
    requires tail != [] && tail[0] == '"'
    requires forall k :: 0 <= k < |v| ==> v[k] != '\\' && !IsLineTerminator(v[k])
    ensures ReadQuoted(s, p) == Some((v, p + |QuoteEscaped(v)|))
    decreases |v|
  {
    if v == [] {
      assert s[p..][0] == '"';
    } else {
      var rest := v[1..];
      var head: string := if v[0] == '"' then ['\\', '"'] else [v[0]];
      assert QuoteEscaped(v) == head + QuoteEscaped(rest);
      assert s[p..] == head + (QuoteEscaped(rest) + tail);
      SplitAt(s, p, head, QuoteEscaped(rest) + tail);
      ReadEscapedQuotes(s, p + |head|, rest, tail);
      var e := p + |head| + |QuoteEscaped(rest)|;
      assert v[0] != '\\' && !IsLineTerminator(v[0]);
      assert v == [v[0]] + rest;
      if v[0] == '"' {
        assert s[p] == '\\' && s[p + 1] == '"';
        EscapedQuoteStep(s, p, rest, e);
      } else {
        assert s[p] == v[0];
        PlainCharStep(s, p, rest, e);
      }
    }
  }

  /** An escaped quote in front of a quoted value that reads back. */
  lemma EscapedQuoteStep(s: string, p: nat, w: string, e: nat)
    requires p + 1 < |s| && s[p] == '\\' && s[p + 1] == '"'
    requires ReadQuoted(s, p + 2) == Some((w, e))
    ensures ReadQuoted(s, p) == Some((['"'] + w, e))
  {
  }

  /** A character that is neither a quote, a backslash nor a line terminator, in front of a quoted value that reads back. */
  lemma PlainCharStep(s: string, p: nat, w: string, e: nat)
    requires p < |s| && s[p] != '"' && s[p] != '\\' && !IsLineTerminator(s[p])
    requires ReadQuoted(s, p + 1) == Some((w, e))
    ensures ReadQuoted(s, p) == Some(([s[p]] + w, e))
  {
  }

  /** The escape of a value that holds no backslash and no named control, one character at a time. */
  lemma EscapeHead(v: string)
    requires v != [] && v[0] != '\\' && !IsNamedControl(v[0])
    ensures Escape(v) == (if v[0] == '"' then ['\\', '"'] else [v[0]]) + Escape(v[1..])
  {
  }

  /** Where `s[p..]` is `x + y`, the text from `p` spells `x` and then `y` follows. */
  lemma SplitAt(s: string, p: nat, x: string, y: string)
    requires p <= |s| && s[p..] == x + y
    ensures p + |x| <= |s| && s[p + |x|..] == y
    ensures forall k :: 0 <= k < |x| ==> s[p + k] == x[k]
  {
    assert s[p + |x|..] == s[p..][|x|..];
    forall k | 0 <= k < |x|
      ensures s[p + k] == x[k]
    {
      assert s[p + k] == s[p..][k];
    }
  }

  /**
   * A value holding quotes, escaped by the client's own escaper and placed in
   * `{"key": "..."}`, reads back exactly under the corrected reading. The
   * value holds no backslash and no control character the escaper rewrites,
   * since the intended reading undoes only `\"`.
   */
  lemma ParseJsonValueRoundTrip(key: string, value: string)
    requires forall c :: c in value ==> c != '\\' && !IsNamedControl(c) && !IsLineTerminator(c)
    ensures ParseJsonValue(OneField(key, '"', EscapeJsonString(value)), key) == value
  {
    EscapeJsonStringIsPerCharacter(value);
    forall k | 0 <= k < |value|
      ensures value[k] != '\\' && !IsNamedControl(value[k]) && !IsLineTerminator(value[k])
    {
      assert value[k] in value;
    }
    EscapeOnlyQuotes(value);
    var inner := QuoteEscaped(value);
    OneFieldLayout(key, '"', inner);
    var s := OneField(key, '"', inner);
    QuotedFieldFacts(s, key, inner);
    ReadsBackAfterLead(s, key, value);
    CorrectedLeftmostWins(s, key, 1, value);
  }

  /** Where the lead and the value start in a text laid out as `OneField(key, '"', inner)`. */
  lemma QuotedFieldFacts(s: string, key: string, inner: string)
    requires OneFieldLaidOut(s, key, '"', inner)
    ensures LeadAt(s, key, 1) == Some((|key| + 3, |key| + 5)) && s[|key| + 5] == '"'
    ensures s[|key| + 6..] == inner + ['"', '}']
    ensures forall k: nat :: k < 1 ==> ReadValueAt(s, key, k).None?
  {
    NothingAtTheBrace(s, key, '"', inner);
    LaidOutLead(s, key, '"', inner);
    LeadAtIsLead(s, key, 1);
    LaidOutRest(s, key, inner);
  }

  /** After the first lead, an escaped value with only quote escapes reads back under the corrected reading. */
  lemma ReadsBackAfterLead(s: string, key: string, value: string)
    requires LeadAt(s, key, 1) == Some((|key| + 3, |key| + 5)) && s[|key| + 5] == '"'
    requires |key| + 6 <= |s| && s[|key| + 6..] == QuoteEscaped(value) + ['"', '}']
    requires forall k :: 0 <= k < |value| ==> value[k] != '\\' && !IsLineTerminator(value[k])
    ensures ReadValueAt(s, key, 1) == Some(value)
  {
    ReadEscapedQuotes(s, |key| + 6, value, ['"', '}']);
  }
}
