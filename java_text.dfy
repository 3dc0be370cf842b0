/**
 * `String.replace(CharSequence target, CharSequence replacement)` of the Java
 * library, which the client uses for escaping and for un-escaping quotes:
 * every occurrence of `target`, found left to right and without overlap,
 * is replaced by `replacement`.
 */
module JavaText {

  /** Java's `s.replace(target, replacement)` for a non-empty target. */
  function Replace(s: string, target: string, replacement: string): string
    requires |target| > 0
    decreases |s|
  {
    if |s| < |target| then s
    else if s[..|target|] == target then replacement + Replace(s[|target|..], target, replacement)
    else [s[0]] + Replace(s[1..], target, replacement)
  }

  /** A text in which some character of the target never occurs is left as it is. */
  lemma {:induction false} ReplaceWithoutTarget(s: string, target: string, replacement: string, c: char)
    requires |target| > 0 && c in target && c !in s
    ensures Replace(s, target, replacement) == s
    decreases |s|
  {
    if |target| <= |s| {
      assert s[..|target|] != target by {
        assert c !in s[..|target|];
      }
      assert c !in s[1..];
      ReplaceWithoutTarget(s[1..], target, replacement, c);
    }
  }

  /** With a one-character target, replacing acts on the first character and then on the rest. */
  lemma ReplaceCharCons(c: char, t: string, p: char, replacement: string)
    ensures Replace([c] + t, [p], replacement)
         == (if c == p then replacement else [c]) + Replace(t, [p], replacement)
  {
    var s := [c] + t;
    assert s[..1] == [c] && s[1..] == t;
  }

  /** With a one-character target, replacing distributes over concatenation. */
  lemma {:induction false} ReplaceCharConcat(a: string, b: string, p: char, replacement: string)
    ensures Replace(a + b, [p], replacement) == Replace(a, [p], replacement) + Replace(b, [p], replacement)
    decreases |a|
  {
    if a == [] {
      assert a + b == b;
      assert Replace(a, [p], replacement) == [];
    } else {
      assert a + b == [a[0]] + (a[1..] + b);
      assert a == [a[0]] + a[1..];
      ReplaceCharCons(a[0], a[1..] + b, p, replacement);
      ReplaceCharCons(a[0], a[1..], p, replacement);
      ReplaceCharConcat(a[1..], b, p, replacement);
    }
  }
}
