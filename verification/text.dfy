/** The two string operations the engine relies on: upper-casing of a
    presented code and JavaScript's `<=` on strings, which is how calendar
    dates in the fixed-width `YYYY-MM-DD` form are compared. */
module Text {

  /** `toUpperCase` restricted to ASCII: `a`..`z` become `A`..`Z`. */
  function UpperChar(c: char): char
  {
    if 'a' <= c <= 'z' then (c as int - 32) as char else c
  }

  /** `s.toUpperCase()` on ASCII: each character upper-cased in place. */
  function UpperAscii(s: string): string
  {
    seq(|s|, i requires 0 <= i < |s| => UpperChar(s[i]))
  }

  /** A string with no lower-case ASCII letter. */
  predicate NoLowerAscii(s: string) {
    forall i :: 0 <= i < |s| ==> !('a' <= s[i] <= 'z')
  }

  /** Upper-casing leaves a string without lower-case letters as it is, and
      every result of upper-casing is such a string; so upper-casing twice is
      upper-casing once, and it changes nothing but letters. */
  lemma UpperAsciiFixes(s: string)
    ensures NoLowerAscii(UpperAscii(s))
    ensures NoLowerAscii(s) <==> UpperAscii(s) == s
    ensures UpperAscii(UpperAscii(s)) == UpperAscii(s)
    ensures |UpperAscii(s)| == |s| && forall i :: 0 <= i < |s| && !('a' <= s[i] <= 'z') ==> UpperAscii(s)[i] == s[i]
  {
    if NoLowerAscii(s) {
      assert UpperAscii(s) == s;
    }
    var u := UpperAscii(s);
    assert UpperAscii(u) == u;
  }

  /** JavaScript's `a <= b` on strings of Basic Multilingual Plane
      characters (here ASCII dates): lexicographic by character code, a
      proper prefix before its extensions. JavaScript compares UTF-16 code
      units, which orders characters above U+FFFF differently. */
  predicate StringLe(a: string, b: string)
  {
    if a == [] then true
    else if b == [] then false
    else if a[0] != b[0] then a[0] < b[0]
    else StringLe(a[1..], b[1..])
  }

  lemma {:induction false} StringLeReflexive(a: string)
    ensures StringLe(a, a)
  {
    if a != [] {
      StringLeReflexive(a[1..]);
    }
  }

  lemma {:induction false} StringLeTotal(a: string, b: string)
    ensures StringLe(a, b) || StringLe(b, a)
  {
    if a != [] && b != [] && a[0] == b[0] {
      StringLeTotal(a[1..], b[1..]);
    }
  }

  lemma {:induction false} StringLeAntisymmetric(a: string, b: string)
    requires StringLe(a, b) && StringLe(b, a)
    ensures a == b
  {
    if a != [] && b != [] {
      StringLeAntisymmetric(a[1..], b[1..]);
      assert a == [a[0]] + a[1..] && b == [b[0]] + b[1..];
    }
  }

  lemma {:induction false} StringLeTransitive(a: string, b: string, c: string)
    requires StringLe(a, b) && StringLe(b, c)
    ensures StringLe(a, c)
  {
    if a != [] && b != [] && c != [] && a[0] == b[0] && b[0] == c[0] {
      StringLeTransitive(a[1..], b[1..], c[1..]);
    }
  }
}
