/** Small string and option helpers shared by the popup model. */
module Text {

  datatype Option<+T> = None | Some(value: T)

  /** U+212A KELVIN SIGN, which `toLowerCase` turns into the ASCII letter `k`. */
  const KelvinSign: char := '\U{212A}'

  /** The characters `toLowerCase` turns into a different ASCII letter: `A`-`Z` and the Kelvin sign. */
  predicate IsUpper(c: char) {
    ('A' <= c <= 'Z') || c == KelvinSign
  }

  /** One character of `toLowerCase`, for the characters whose lower-case form is ASCII. */
  function LowerChar(c: char): (r: char)
    ensures !IsUpper(r)
    ensures !IsUpper(c) ==> r == c
  {
    if c == KelvinSign then 'k'
    else if 'A' <= c <= 'Z' then (c as int + 32) as char
    else c
  }

  /** `String.prototype.toLowerCase`, as far as it can produce ASCII letters. */
  function Lower(s: string): (r: string)
    ensures |r| == |s|
  {
    if s == [] then [] else [LowerChar(s[0])] + Lower(s[1..])
  }

  predicate IsLowerCase(s: string) {
    forall i :: 0 <= i < |s| ==> !IsUpper(s[i])
  }

  /** Lower-casing works character by character. */
  lemma {:induction false} LowerAt(s: string, i: nat)
    requires i < |s|
    ensures Lower(s)[i] == LowerChar(s[i])
  {
    if i > 0 {
      LowerAt(s[1..], i - 1);
    }
  }

  /** Lower-casing leaves a string without upper-case letters unchanged, and is therefore idempotent. */
  lemma {:induction false} LowerOfLowerCase(s: string)
    requires IsLowerCase(s)
    ensures Lower(s) == s
  {
    if s != [] {
      LowerOfLowerCase(s[1..]);
    }
  }

  lemma LowerIdempotent(s: string)
    ensures IsLowerCase(Lower(s))
    ensures Lower(Lower(s)) == Lower(s)
  {
    forall i | 0 <= i < |s| ensures !IsUpper(Lower(s)[i]) {
      LowerAt(s, i);
    }
    LowerOfLowerCase(Lower(s));
  }

  /** `s.endsWith(suffix)` */
  predicate EndsWith(s: string, suffix: string) {
    |suffix| <= |s| && s[|s| - |suffix|..] == suffix
  }

  /** Ending with one character is a test of the last character, which a non-empty tail decides. */
  lemma EndsWithChar(a: string, b: string, c: char)
    ensures EndsWith(a, [c]) <==> |a| > 0 && a[|a| - 1] == c
    ensures b != [] ==> (EndsWith(a + b, [c]) <==> b[|b| - 1] == c)
  {
    if |a| > 0 {
      assert a[|a| - 1..] == [a[|a| - 1]];
    }
    if b != [] {
      var ab := a + b;
      assert ab[|ab| - 1..] == [ab[|ab| - 1]];
      assert ab[|ab| - 1] == b[|b| - 1];
    }
  }
}
