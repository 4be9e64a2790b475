/**
  `clean_series_title` (app.py): the series tracker's "clean title" key, a fixed
  chain of rewrites.  The stop-word substitution is modelled as the left-to-right
  scan `re.sub` performs, with the pattern's lookarounds written out literally.
*/
module SeriesTitle {
  import opened Optional
  import opened UnicodeTables
  import opened PyStrings

  /** The alternatives of the stop-word group, in the order the regex tries them. */
  const StopWords: seq<string> := ["a", "à", "an", "the", "and", "or", "of"]

  /**
    The length of each alternative, as a number: where a match ends and the
    scan resumes.
  */
  function TokenLength(n: nat): (len: nat)
    requires n < |StopWords|
    ensures len == |StopWords[n]|
  {
    if n <= 1 then 1 else if n == 2 || n == 5 || n == 6 then 2 else 3
  }

  /** Every alternative is a non-empty run of lower-case letters. */
  lemma StopWordsAreLowerLetters()
    ensures forall n, k :: 0 <= n < |StopWords| && 0 <= k < |StopWords[n]| ==> IsLowerLetter(StopWords[n][k])
    ensures forall n :: 0 <= n < |StopWords| ==> |StopWords[n]| > 0
  {
    forall n, k | 0 <= n < |StopWords| && 0 <= k < |StopWords[n]|
      ensures IsLowerLetter(StopWords[n][k])
    {
      assert n == 0 || n == 1 || n == 2 || n == 3 || n == 4 || n == 5 || n == 6;
    }
  }

  // ---------------------------------------------------------------------------
  // The pattern at app.py:28, piece by piece.

  /** A `\w` character at position `k`; positions outside the string are not. */
  predicate WordAt(s: string, k: int) {
    0 <= k < |s| && IsWordChar(s[k])
  }

  /** `\b` between `s[i-1]` and `s[i]`. */
  predicate WordBoundary(s: string, i: int) {
    WordAt(s, i - 1) != WordAt(s, i)
  }

  /** `$` without MULTILINE: the end of the string, or just before a final newline. */
  predicate AtDollar(s: string, j: int) {
    j == |s| || (0 <= j == |s| - 1 && s[j] == '\n')
  }

  /** `(?:(?<=\b)|(?<=_))(?<!^)` at position `i` (lookbehinds read the original string). */
  predicate MayStart(s: string, i: int) {
    (WordBoundary(s, i) || (0 < i <= |s| && s[i - 1] == '_')) && i != 0
  }

  /** `(?!$)(?=\b|_)` at position `j` (the `(?!$)` that follows `a` and `à` is the same test). */
  predicate MayEnd(s: string, j: int) {
    !AtDollar(s, j) && (WordBoundary(s, j) || (0 <= j < |s| && s[j] == '_'))
  }

  /** The alternative `w` occurs at `i`, compared case-insensitively (`re.IGNORECASE`). */
  predicate TokenAt(s: string, i: nat, w: string) {
    i + |w| <= |s| && forall k :: 0 <= k < |w| ==> LowerChar(s[i + k]) == w[k]
  }

  /** The regex matches the alternative `StopWords[n]` at `i`. */
  predicate Fits(s: string, i: nat, n: nat)
    requires n < |StopWords|
  {
    MayStart(s, i) && TokenAt(s, i, StopWords[n]) && MayEnd(s, i + |StopWords[n]|)
  }

  /**
    The same condition in the terms of the alphabet: the token begins after a
    `[\W_]` character (so never at position 0) and is followed by a `[\W_]`
    character that is not Python's end of string.
  */
  predicate Removable(s: string, i: nat, n: nat)
    requires n < |StopWords|
  {
    var w := StopWords[n];
    && 0 < i <= |s| && !IsAlnum(s[i - 1])
    && TokenAt(s, i, w)
    && i + |w| < |s| && !AtDollar(s, i + |w|) && !IsAlnum(s[i + |w|])
  }

  /** A case-insensitive occurrence of an alternative consists of word characters other than `_`. */
  lemma TokenIsAlnum(s: string, i: nat, n: nat)
    requires n < |StopWords| && TokenAt(s, i, StopWords[n])
    ensures forall k :: i <= k < i + |StopWords[n]| ==> IsAlnum(s[k])
  {
    StopWordsAreLowerLetters();
    forall k | i <= k < i + |StopWords[n]| ensures IsAlnum(s[k]) {
      assert LowerChar(s[k]) == StopWords[n][k - i];
    }
  }

  /** The first alternative, from `n` on, that the regex matches at `i`. */
  function FirstFit(s: string, i: nat, n: nat): (r: Option<nat>)
    requires n <= |StopWords|
    ensures r.Some? ==> n <= r.value < |StopWords| && Fits(s, i, r.value)
    ensures r.Some? ==> forall m :: n <= m < r.value ==> !Fits(s, i, m)
    ensures r.None? ==> forall m :: n <= m < |StopWords| ==> !Fits(s, i, m)
    decreases |StopWords| - n
  {
    if n == |StopWords| then None
    else if Fits(s, i, n) then Some(n)
    else FirstFit(s, i, n + 1)
  }

  /**
    The alternative the regex matches at `i`, if any: the first of StopWords,
    in order, that is removable there.
  */
  function MatchAt(s: string, i: nat): (r: Option<nat>)
    requires i <= |s|
    ensures r.Some? ==> r.value < |StopWords| && Removable(s, i, r.value)
    ensures r.None? ==> forall m :: 0 <= m < |StopWords| ==> !Removable(s, i, m)
  {
    FitsIffRemovable(s, i);
    FirstFit(s, i, 0)
  }

  lemma FitsIffRemovable(s: string, i: nat)
    requires i <= |s|
    ensures forall n :: 0 <= n < |StopWords| ==> (Fits(s, i, n) <==> Removable(s, i, n))
  {
    StopWordsAreLowerLetters();
    forall n | 0 <= n < |StopWords|
      ensures Fits(s, i, n) <==> Removable(s, i, n)
    {
      var w := StopWords[n];
      if TokenAt(s, i, w) {
        TokenIsAlnum(s, i, n);
        assert IsWordChar(s[i]) && IsWordChar(s[i + |w| - 1]);
      }
    }
  }

  /** The stop words are pairwise different. */
  lemma StopWordsDistinct()
    ensures forall m, n :: 0 <= m < n < |StopWords| ==> StopWords[m] != StopWords[n]
  {
    assert StopWords[1] != StopWords[0] by { assert StopWords[1][0] != StopWords[0][0]; }
  }

  /**
    At most one stop word is removable at a position: a removable token is
    followed by a separator, so no other alternative can extend or shorten it.
    The order of the alternatives in the pattern therefore never matters.
  */
  lemma RemovableUnique(s: string, i: nat, m: nat, n: nat)
    requires m < |StopWords| && n < |StopWords|
    requires Removable(s, i, m) && Removable(s, i, n)
    ensures m == n
  {
    var v, w := StopWords[m], StopWords[n];
    TokenIsAlnum(s, i, m);
    TokenIsAlnum(s, i, n);
    if |v| < |w| {
      assert false;
    } else if |w| < |v| {
      assert false;
    } else {
      assert forall k :: 0 <= k < |v| ==> v[k] == LowerChar(s[i + k]) == w[k];
      assert v == w;
      StopWordsDistinct();
    }
  }

  /** A removable stop word is the one the regex matches. */
  lemma MatchAtRemovable(s: string, i: nat, n: nat)
    requires i <= |s| && n < |StopWords| && Removable(s, i, n)
    ensures MatchAt(s, i) == Some(n)
  {
    var r := MatchAt(s, i);
    if r.Some? {
      RemovableUnique(s, i, r.value, n);
    }
  }

  /** `re.sub(pattern, "", s)` resumed at position `i` of `s`. */
  function StripFrom(s: string, i: nat): string
    requires i <= |s|
    decreases |s| - i
  {
    if i == |s| then []
    else match MatchAt(s, i)
      case Some(n) => StripFrom(s, i + TokenLength(n))
      case None => [s[i]] + StripFrom(s, i + 1)
  }

  /** The stop-word substitution of app.py:27-30. */
  function StripStopWords(s: string): string {
    StripFrom(s, 0)
  }

  /** `re.sub(r"[\W_]+", "", s)`: keep only word characters other than `_`. */
  function RemoveSeparators(s: string): (r: string)
    ensures forall k :: 0 <= k < |r| ==> IsAlnum(r[k])
    ensures (forall k :: 0 <= k < |s| ==> IsAlnum(s[k])) ==> r == s
    ensures (forall k :: 0 <= k < |s| ==> !IsAlnum(s[k])) ==> r == []
  {
    if s == [] then []
    else if IsAlnum(s[0]) then [s[0]] + RemoveSeparators(s[1..])
    else RemoveSeparators(s[1..])
  }

  /** The generator at app.py:34: drop every character of category Mn. */
  function DropMarks(s: string): (r: string)
    ensures forall k :: 0 <= k < |r| ==> !IsMn(r[k])
    ensures (forall k :: 0 <= k < |s| ==> !IsMn(s[k])) ==> r == s
  {
    if s == [] then []
    else if IsMn(s[0]) then DropMarks(s[1..])
    else [s[0]] + DropMarks(s[1..])
  }

  /** A title the normaliser passes through untouched: empty, blank or all digits. */
  predicate PassesThrough(title: string) {
    (forall k :: 0 <= k < |title| ==> IsSpace(title[k])) || IsDigitString(title)
  }

  /** A character a clean key may contain: lower-case, alphanumeric, fully decomposed. */
  predicate KeyChar(c: char) {
    IsAlnum(c) && LowerChar(c) == c && !HasDecomposition(c)
  }

  predicate IsCleanKey(k: string) {
    forall n :: 0 <= n < |k| ==> KeyChar(k[n])
  }

  /** The rewrites of app.py:26-34, applied to a title that does not pass through. */
  function Rewrite(title: string): (r: string)
    ensures IsCleanKey(r)
  {
    var joined := RemoveSeparators(StripStopWords(ReplaceChar(title, '%', "percent")));
    LowerAlnumDecomposesToKeys(Lower(joined));
    Fold(joined)
  }

  /** The last three steps of app.py:32-34: lower-case, decompose, drop the marks. */
  function Fold(s: string): string {
    DropMarks(Nfd(Lower(s)))
  }

  /** `clean_series_title` (app.py:21-35). */
  function CleanSeriesTitle(title: string): (r: string)
    ensures PassesThrough(title) ==> r == title
    ensures !PassesThrough(title) ==> IsCleanKey(r)
  {
    if title == [] || Strip(title) == [] then title
    else if IsDigitString(title) then title
    else Rewrite(title)
  }

  /** Decomposing lower-case alphanumerics yields key characters and combining marks only. */
  lemma {:induction false} LowerAlnumDecomposesToKeys(s: string)
    requires forall k :: 0 <= k < |s| ==> IsAlnum(s[k]) && LowerChar(s[k]) == s[k]
    ensures forall k :: 0 <= k < |DropMarks(Nfd(s))| ==> KeyChar(DropMarks(Nfd(s))[k])
  {
    if s != [] {
      LowerAlnumDecomposesToKeys(s[1..]);
      var d := Decomposition(s[0]);
      assert Nfd(s) == d + Nfd(s[1..]);
      DropMarksAppend(d, Nfd(s[1..]));
      assert DropMarks(d) == [d[0]] by {
        assert d == [d[0]] + d[1..];
        DropMarksAllMarks(d[1..]);
      }
    }
  }

  lemma {:induction false} DropMarksAppend(a: string, b: string)
    ensures DropMarks(a + b) == DropMarks(a) + DropMarks(b)
  {
    if a == [] {
      assert a + b == b;
    } else {
      assert (a + b)[1..] == a[1..] + b;
      DropMarksAppend(a[1..], b);
    }
  }

  lemma {:induction false} DropMarksAllMarks(a: string)
    requires forall k :: 0 <= k < |a| ==> IsMn(a[k])
    ensures DropMarks(a) == []
  {
    if a != [] {
      DropMarksAllMarks(a[1..]);
    }
  }

  // ---------------------------------------------------------------------------
  // What the stop-word scan removes and what it keeps.

  /** The `[\W_]` characters of `s`, in order. */
  function Separators(s: string): (r: string)
    ensures forall k :: 0 <= k < |r| ==> !IsAlnum(r[k])
  {
    if s == [] then []
    else if IsAlnum(s[0]) then Separators(s[1..])
    else [s[0]] + Separators(s[1..])
  }

  lemma {:induction false} SeparatorsAppend(a: string, b: string)
    ensures Separators(a + b) == Separators(a) + Separators(b)
  {
    if a == [] {
      assert a + b == b;
    } else {
      assert (a + b)[1..] == a[1..] + b;
      SeparatorsAppend(a[1..], b);
    }
  }

  lemma {:induction false} SeparatorsOfAlnum(a: string)
    requires forall k :: 0 <= k < |a| ==> IsAlnum(a[k])
    ensures Separators(a) == []
  {
    if a != [] {
      SeparatorsOfAlnum(a[1..]);
    }
  }

  /** One step of the scan: a match is skipped, anything else is kept. */
  lemma StripFromStep(s: string, i: nat)
    requires i < |s|
    ensures MatchAt(s, i).Some? ==> StripFrom(s, i) == StripFrom(s, i + TokenLength(MatchAt(s, i).value))
    ensures MatchAt(s, i).None? ==> StripFrom(s, i) == [s[i]] + StripFrom(s, i + 1)
  {
  }

  /** Only letters are deleted: every `[\W_]` character survives, in order. */
  lemma {:induction false} StripFromKeepsSeparators(s: string, i: nat)
    requires i <= |s|
    ensures Separators(StripFrom(s, i)) == Separators(s[i..])
    decreases |s| - i
  {
    if i < |s| {
      var m := MatchAt(s, i);
      StripFromStep(s, i);
      if m.Some? {
        StripFromKeepsSeparators(s, i + TokenLength(m.value));
        SkippedTokenHasNoSeparators(s, i, m.value);
      } else {
        StripFromKeepsSeparators(s, i + 1);
        KeptCharSeparators(s, i);
      }
    }
  }

  lemma SkippedTokenHasNoSeparators(s: string, i: nat, n: nat)
    requires n < |StopWords| && TokenAt(s, i, StopWords[n])
    ensures Separators(s[i..]) == Separators(s[i + TokenLength(n)..])
  {
    var j := i + TokenLength(n);
    assert s[i..] == s[i..j] + s[j..];
    SeparatorsAppend(s[i..j], s[j..]);
    TokenIsAlnum(s, i, n);
    SeparatorsOfAlnum(s[i..j]);
  }

  lemma KeptCharSeparators(s: string, i: nat)
    requires i < |s|
    ensures Separators([s[i]] + StripFrom(s, i + 1)) == Separators([s[i]]) + Separators(StripFrom(s, i + 1))
    ensures Separators(s[i..]) == Separators([s[i]]) + Separators(s[i + 1..])
  {
    assert s[i..] == [s[i]] + s[i + 1..];
    SeparatorsAppend([s[i]], StripFrom(s, i + 1));
    SeparatorsAppend([s[i]], s[i + 1..]);
  }

  lemma StripStopWordsKeepsSeparators(s: string)
    ensures Separators(StripStopWords(s)) == Separators(s)
  {
    StripFromKeepsSeparators(s, 0);
  }

  /** Every character of `s[i..j]` is a letter or a digit. */
  predicate AlnumBetween(s: string, i: int, j: int) {
    forall k :: i <= k < j && 0 <= k < |s| ==> IsAlnum(s[k])
  }

  /**
    A suffix of letters and digits is kept whole: a token starting inside it
    ends either before another letter or digit or at the end of the string.
  */
  lemma {:induction false} StripFromAlnum(s: string, i: nat)
    requires i <= |s|
    requires AlnumBetween(s, i, |s|)
    ensures StripFrom(s, i) == s[i..]
    decreases |s| - i
  {
    if i < |s| {
      assert MatchAt(s, i).None?;
      StripFromAlnum(s, i + 1);
      assert s[i..] == [s[i]] + s[i + 1..];
    }
  }

  /** A character that follows a `[^\W_]` character, or starts the string, is kept. */
  lemma KeptAfterAlnum(s: string, i: nat)
    requires i < |s|
    requires i == 0 || IsAlnum(s[i - 1])
    ensures StripFrom(s, i) == [s[i]] + StripFrom(s, i + 1)
  {
    assert MatchAt(s, i).None?;
  }

  /**
   * A run of letters and digits that starts after a letter or digit (or at
   * the start) survives the scan unchanged: no stop word can start inside it.
   */
  lemma {:induction false} StripFromRun(s: string, i: nat, j: nat)
    requires i < j <= |s|
    requires i == 0 || IsAlnum(s[i - 1])
    requires AlnumBetween(s, i, j - 1)
    ensures StripFrom(s, i) == s[i..j] + StripFrom(s, j)
    decreases j - i
  {
    if i + 1 < j {
      RunContinues(s, i, j);
      StripFromRun(s, i + 1, j);
      StripFromRunStep(s, i, j);
    } else {
      StripFromRunLast(s, i);
    }
  }

  lemma RunContinues(s: string, i: nat, j: nat)
    requires i + 1 < j <= |s| && AlnumBetween(s, i, j - 1)
    ensures IsAlnum(s[i]) && AlnumBetween(s, i + 1, j - 1)
  {
  }

  lemma StripFromRunStep(s: string, i: nat, j: nat)
    requires i + 1 < j <= |s|
    requires StripFrom(s, i + 1) == s[i + 1..j] + StripFrom(s, j)
    requires i == 0 || IsAlnum(s[i - 1])
    ensures StripFrom(s, i) == s[i..j] + StripFrom(s, j)
  {
    KeptAfterAlnum(s, i);
    PrependSlice(s, i, j, StripFrom(s, j));
  }

  lemma StripFromRunLast(s: string, i: nat)
    requires i + 1 <= |s|
    requires i == 0 || IsAlnum(s[i - 1])
    ensures StripFrom(s, i) == s[i..i + 1] + StripFrom(s, i + 1)
  {
    KeptAfterAlnum(s, i);
    assert s[i..i + 1] == [s[i]];
  }

  lemma PrependSlice(s: string, i: nat, j: nat, t: string)
    requires i < j <= |s|
    ensures [s[i]] + (s[i + 1..j] + t) == s[i..j] + t
  {
    assert s[i..j] == [s[i]] + s[i + 1..j];
  }

  lemma {:induction false} RemoveSeparatorsAppend(a: string, b: string)
    ensures RemoveSeparators(a + b) == RemoveSeparators(a) + RemoveSeparators(b)
  {
    if a == [] {
      assert a + b == b;
    } else {
      assert (a + b)[1..] == a[1..] + b;
      RemoveSeparatorsAppend(a[1..], b);
    }
  }

  /** The leading token is never a stop word: the scan always keeps the first character. */
  lemma StripStopWordsKeepsFirst(s: string)
    requires s != []
    ensures StripStopWords(s) == [s[0]] + StripFrom(s, 1)
  {
    KeptAfterAlnum(s, 0);
  }

  // ---------------------------------------------------------------------------
  // Idempotence.

  /** Each rewrite leaves a clean key alone. */
  lemma RewriteFixesCleanKey(k: string)
    requires IsCleanKey(k)
    ensures Rewrite(k) == k
  {
    assert ReplaceChar(k, '%', "percent") == k;
    StripFromAlnum(k, 0);
    assert RemoveSeparators(StripStopWords(k)) == k;
    assert Lower(k) == k;
    assert Nfd(k) == k;
  }

  /** A clean key is a fixed point of the normaliser. */
  lemma CleanKeyIsFixed(k: string)
    requires IsCleanKey(k)
    ensures CleanSeriesTitle(k) == k
  {
    RewriteFixesCleanKey(k);
  }

  /** Re-cleaning a cleaned title gives the same key (app.py:27-34). */
  lemma CleanIdempotent(title: string)
    ensures CleanSeriesTitle(CleanSeriesTitle(title)) == CleanSeriesTitle(title)
  {
    if !PassesThrough(title) {
      CleanKeyIsFixed(CleanSeriesTitle(title));
    }
  }
}
