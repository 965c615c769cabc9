/** Case of ASCII letters. */
module Ascii {

  function LowerChar(c: char): char {
    if 'A' <= c <= 'Z' then 'a' + (c - 'A') else c
  }

  /** Capital ASCII letters replaced by small ones. */
  function Lower(s: string): string {
    seq(|s|, i requires 0 <= i < |s| => LowerChar(s[i]))
  }

  /** The same character, or an ASCII letter in both cases. */
  ghost predicate SameLetter(c: char, d: char) {
    c == d || ('A' <= c <= 'Z' && d as int == c as int + 32) || ('A' <= d <= 'Z' && c as int == d as int + 32)
  }

  ghost predicate SameUpToCase(a: string, b: string) {
    |a| == |b| && forall i :: 0 <= i < |a| ==> SameLetter(a[i], b[i])
  }

  lemma LowersLetter(c: char, d: char)
    ensures LowerChar(c) == LowerChar(d) <==> SameLetter(c, d)
  {
  }

  lemma LowersOne(c: char)
    ensures SameLetter(c, LowerChar(c)) && !('A' <= LowerChar(c) <= 'Z')
  {
  }

  /** Two texts have the same lower case if and only if they differ in the case of ASCII letters
      alone; and it is the one of them without capitals. */
  lemma LowersExactly(a: string, b: string)
    ensures Lower(a) == Lower(b) <==> SameUpToCase(a, b)
    ensures SameUpToCase(a, Lower(a)) && forall c :: c in Lower(a) ==> !('A' <= c <= 'Z')
  {
    hide LowerChar, SameLetter;
    forall i | 0 <= i < |a| ensures SameLetter(a[i], Lower(a)[i]) && !('A' <= Lower(a)[i] <= 'Z') {
      LowersOne(a[i]);
    }
    if |a| == |b| {
      forall i | 0 <= i < |a| ensures Lower(a)[i] == Lower(b)[i] <==> SameLetter(a[i], b[i]) {
        LowersLetter(a[i], b[i]);
      }
    }
    assert |Lower(a)| == |a| && |Lower(b)| == |b|;
  }
}
