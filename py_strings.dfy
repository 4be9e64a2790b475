/**
  The Python string built-ins the title normaliser and the alias handlers rely
  on (`str.strip`, `str.isdigit`, `str.lower`, `str.replace`,
  `unicodedata.normalize("NFD", ...)`), over the character tables of
  UnicodeTables.
*/
module PyStrings {
  import opened UnicodeTables

  /** `s.lstrip()`: a suffix of `s` that drops leading whitespace only. */
  function StripLeading(s: string): (r: string)
    ensures |r| <= |s| && r == s[|s| - |r|..]
    ensures forall k :: 0 <= k < |s| - |r| ==> IsSpace(s[k])
    ensures r != [] ==> !IsSpace(r[0])
  {
    if s != [] && IsSpace(s[0]) then StripLeading(s[1..]) else s
  }

  /** `s.rstrip()`: a prefix of `s` that drops trailing whitespace only. */
  function StripTrailing(s: string): (r: string)
    ensures |r| <= |s| && r == s[..|r|]
    ensures forall k :: |r| <= k < |s| ==> IsSpace(s[k])
    ensures r != [] ==> !IsSpace(r[|r| - 1])
  {
    if s != [] && IsSpace(s[|s| - 1]) then StripTrailing(s[..|s| - 1]) else s
  }

  /** `s.strip()`: `s` without its leading and trailing whitespace. */
  function Strip(s: string): (r: string)
    ensures r == [] <==> forall k :: 0 <= k < |s| ==> IsSpace(s[k])
    ensures r != [] ==> !IsSpace(r[0]) && !IsSpace(r[|r| - 1])
  {
    StripTrailing(StripLeading(s))
  }

  /** `s.isdigit()`: non-empty and made of digits only. */
  predicate IsDigitString(s: string) {
    |s| > 0 && forall k :: 0 <= k < |s| ==> IsDigit(s[k])
  }

  /** `s.lower()`, character by character. */
  function Lower(s: string): string {
    seq(|s|, k requires 0 <= k < |s| => LowerChar(s[k]))
  }

  /** `s.replace(c, w)` for a one-character needle `c`. */
  function ReplaceChar(s: string, c: char, w: string): (r: string)
    ensures c !in w ==> c !in r
    ensures c !in s ==> r == s
  {
    if s == [] then [] else (if s[0] == c then w else [s[0]]) + ReplaceChar(s[1..], c, w)
  }

  /** Each occurrence of the needle grows the string by `|w| - 1` characters. */
  lemma {:induction false} ReplaceCharLength(s: string, c: char, w: string)
    ensures |ReplaceChar(s, c, w)| == |s| + multiset(s)[c] * (|w| - 1)
  {
    if s == [] {
      assert multiset(s)[c] == 0;
    } else {
      var tail := s[1..];
      ReplaceCharLength(tail, c, w);
      assert s == [s[0]] + tail;
      var hit := if s[0] == c then 1 else 0;
      assert multiset(s)[c] == multiset(tail)[c] + hit;
      assert |ReplaceChar(s, c, w)| == |tail| + multiset(tail)[c] * (|w| - 1) + 1 + hit * (|w| - 1);
      MulAddRight(multiset(tail)[c], hit, |w| - 1);
    }
  }

  lemma MulAddRight(a: int, b: int, g: int)
    ensures a * g + b * g == (a + b) * g
  {
  }

  /** Replacing commutes with concatenation, so each occurrence is rewritten in place. */
  lemma {:induction false} ReplaceCharAppend(a: string, b: string, c: char, w: string)
    ensures ReplaceChar(a + b, c, w) == ReplaceChar(a, c, w) + ReplaceChar(b, c, w)
  {
    if a == [] {
      assert a + b == b;
    } else {
      assert (a + b)[1..] == a[1..] + b;
      ReplaceCharAppend(a[1..], b, c, w);
    }
  }

  /**
    `unicodedata.normalize("NFD", s)`.  All combining marks of the alphabet have
    canonical combining class 230, so canonical reordering never moves them and
    NFD is the concatenation of the characters' decompositions.
  */
  function Nfd(s: string): (r: string)
    ensures |r| >= |s|
    ensures (forall k :: 0 <= k < |s| ==> !HasDecomposition(s[k])) ==> r == s
  {
    if s == [] then [] else Decomposition(s[0]) + Nfd(s[1..])
  }
}
