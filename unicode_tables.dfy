/**
  The character database behind Python's `str.isspace`, `str.isdigit`, the regex
  class `\w`, `str.lower`, `unicodedata.normalize("NFD", ...)` and
  `unicodedata.category(c) == "Mn"`, restricted to the modelled alphabet:
  ASCII, the six accented letters à À é É ü Ü, the three combining marks
  their canonical decompositions produce, and all of Python's whitespace.
  Every other character is treated as a non-word symbol that lower-casing and
  decomposition leave alone.
*/
module UnicodeTables {

  const CombiningGrave: char := '\U{300}'
  const CombiningAcute: char := '\U{301}'
  const CombiningDiaeresis: char := '\U{308}'

  /**
    `c.isspace()`, which is also what a bare `strip()` removes: the ASCII
    whitespace and separator controls, NEL, and the characters of category Zs,
    Zl and Zp (NBSP, OGHAM SPACE MARK, the spaces U+2000 to U+200A, LINE and
    PARAGRAPH SEPARATOR, NARROW NBSP, MEDIUM MATHEMATICAL SPACE and the
    ideographic space).
  */
  predicate IsSpace(c: char) {
    || c == ' ' || ('\t' <= c <= '\r') || ('\U{1C}' <= c <= '\U{1F}') || c == '\U{85}' || c == '\U{A0}'
    || c == '\U{1680}' || ('\U{2000}' <= c <= '\U{200A}') || c == '\U{2028}' || c == '\U{2029}'
    || c == '\U{202F}' || c == '\U{205F}' || c == '\U{3000}'
  }

  /** `c.isdigit()`. */
  predicate IsDigit(c: char) {
    '0' <= c <= '9'
  }

  predicate IsUpperLetter(c: char) {
    ('A' <= c <= 'Z') || c == 'À' || c == 'É' || c == 'Ü'
  }

  predicate IsLowerLetter(c: char) {
    ('a' <= c <= 'z') || c == 'à' || c == 'é' || c == 'ü'
  }

  predicate IsLetter(c: char) {
    IsUpperLetter(c) || IsLowerLetter(c)
  }

  /** Membership in the regex class `\w` (alphanumeric or underscore). */
  predicate IsWordChar(c: char) {
    IsLetter(c) || IsDigit(c) || c == '_'
  }

  /** The complement of the regex class `[\W_]`: a word character other than `_`. */
  predicate IsAlnum(c: char) {
    IsWordChar(c) && c != '_'
  }

  /** `unicodedata.category(c) == "Mn"`. */
  predicate IsMn(c: char) {
    c == CombiningGrave || c == CombiningAcute || c == CombiningDiaeresis
  }

  /** `c.lower()`; every character of the alphabet lower-cases to one character. */
  function LowerChar(c: char): char {
    if 'A' <= c <= 'Z' then (c as int + 32) as char
    else if c == 'À' then 'à'
    else if c == 'É' then 'é'
    else if c == 'Ü' then 'ü'
    else c
  }

  /** The characters whose canonical decomposition is not themselves. */
  predicate HasDecomposition(c: char) {
    c == 'à' || c == 'À' || c == 'é' || c == 'É' || c == 'ü' || c == 'Ü'
  }

  /** The full canonical decomposition (NFD) of one character. */
  function Decomposition(c: char): (d: seq<char>)
    ensures |d| >= 1
    // a base character first, then only combining marks
    ensures !IsMn(d[0]) <==> !IsMn(c)
    ensures forall k :: 1 <= k < |d| ==> IsMn(d[k])
    // the base keeps the character's class and case, and is itself fully decomposed
    ensures IsAlnum(d[0]) <==> IsAlnum(c)
    ensures IsLowerLetter(c) ==> IsLowerLetter(d[0])
    ensures LowerChar(c) == c ==> LowerChar(d[0]) == d[0]
    ensures !HasDecomposition(d[0])
    ensures d == [c] <==> !HasDecomposition(c)
  {
    match c
    case 'à' => ['a', CombiningGrave]
    case 'À' => ['A', CombiningGrave]
    case 'é' => ['e', CombiningAcute]
    case 'É' => ['E', CombiningAcute]
    case 'ü' => ['u', CombiningDiaeresis]
    case 'Ü' => ['U', CombiningDiaeresis]
    case _ => [c]
  }
}
