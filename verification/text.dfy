/** The Python string operations the script relies on: `str.lower`, `str.upper`,
    `str.endswith` and `str.rfind`. Strings are sequences of Unicode scalar values;
    Python's may also hold lone surrogates, which these cannot represent. */
module Text {

  /** `str.lower` on one character. Only the ASCII letters change case. */
  function LowerChar(c: char): (r: char) {
    if 'A' <= c <= 'Z' then (c as int + 32) as char else c
  }

  /** `str.upper` on one character. Only the ASCII letters change case. */
  function UpperChar(c: char): (r: char) {
    if 'a' <= c <= 'z' then (c as int - 32) as char else c
  }

  function Lower(s: string): (r: string) {
    seq(|s|, i requires 0 <= i < |s| => LowerChar(s[i]))
  }

  function Upper(s: string): (r: string) {
    seq(|s|, i requires 0 <= i < |s| => UpperChar(s[i]))
  }

  /** `s.endswith(suffix)`. */
  predicate EndsWith(s: string, suffix: string) {
    |suffix| <= |s| && s[|s| - |suffix|..] == suffix
  }

  /** Every character is a dot; true of the empty string. */
  predicate AllDots(s: string) {
    forall i :: 0 <= i < |s| ==> s[i] == '.'
  }

  /** `s.rfind(c)`: the index of the last occurrence of `c`, or -1 when there is none. */
  function RFind(s: string, c: char): (i: int)
    ensures -1 <= i < |s|
    ensures i >= 0 ==> s[i] == c
    ensures forall j :: i < j < |s| ==> s[j] != c
  {
    if s == [] then -1
    else if s[|s| - 1] == c then |s| - 1
    else RFind(s[..|s| - 1], c)
  }

  /** An occurrence with no later occurrence is the one `rfind` finds. */
  lemma RFindAt(s: string, c: char, k: nat)
    requires k < |s| && s[k] == c
    requires forall j :: k < j < |s| ==> s[j] != c
    ensures RFind(s, c) == k
  {
  }

  /** A string that lower-cases to ASCII lower-case letters is made of ASCII letters. */
  lemma LowerLetters(s: string)
    requires forall i :: 0 <= i < |s| ==> 'a' <= Lower(s)[i] <= 'z'
    ensures forall i :: 0 <= i < |s| ==> 'a' <= s[i] <= 'z' || 'A' <= s[i] <= 'Z'
  {
    forall i | 0 <= i < |s| ensures 'a' <= s[i] <= 'z' || 'A' <= s[i] <= 'Z' {
      assert Lower(s)[i] == LowerChar(s[i]);
    }
  }

  /** Lower-casing a suffix is the suffix of the lower-cased string. */
  lemma LowerSuffix(s: string, k: nat)
    requires k <= |s|
    ensures Lower(s)[k..] == Lower(s[k..])
  {
  }

  /** Case conversion forgets the case the string was written in: lower-casing
      or upper-casing a string gives the same result whatever case it had. */
  lemma CaseInsensitive(s: string)
    ensures Lower(Upper(s)) == Lower(s)
    ensures Lower(Lower(s)) == Lower(s)
    ensures Upper(Lower(s)) == Upper(s)
  {
    forall i | 0 <= i < |s|
      ensures Lower(Upper(s))[i] == Lower(s)[i]
      ensures Lower(Lower(s))[i] == Lower(s)[i]
      ensures Upper(Lower(s))[i] == Upper(s)[i]
    {
    }
  }
}
