/**
  The rules of `clean_series_title` (app.py:21-35) on titles built from words:
  what a separator does, when a stop word goes and when it stays, and what
  `%` turns into.  A word is a run of letters and digits.
*/
module TitleRules {
  import opened UnicodeTables
  import opened PyStrings
  import opened SeriesTitle

  predicate IsWord(a: string) {
    forall k :: 0 <= k < |a| ==> IsAlnum(a[k])
  }

  /** A `[\W_]` character other than `%` (which is rewritten) and `\n` (which `$` can see). */
  predicate IsPlainSeparator(x: char) {
    !IsAlnum(x) && x != '%' && x != '\n'
  }

  /** The whole of `clean_series_title` on a title that does not pass through, stage by stage. */
  lemma CleanByStages(title: string, replaced: string, stripped: string, joined: string)
    requires !PassesThrough(title)
    requires ReplaceChar(title, '%', "percent") == replaced
    requires StripStopWords(replaced) == stripped
    requires RemoveSeparators(stripped) == joined
    ensures CleanSeriesTitle(title) == Fold(joined)
  {
  }

  /** A word holds no `%`, so the first rewrite leaves it alone. */
  lemma WordHasNoPercent(a: string)
    requires IsWord(a)
    ensures ReplaceChar(a, '%', "percent") == a
  {
    assert forall k :: 0 <= k < |a| ==> a[k] != '%';
  }

  // ---------------------------------------------------------------------------
  // Two words.

  /** Where the parts of "word, separator, word" lie. */
  lemma ThreeParts(a: string, x: char, b: string)
    ensures var s := a + [x] + b;
      && |s| == |a| + 1 + |b| && s[..|a| + 1] == a + [x] && s[|a|] == x && s[|a| + 1..] == b
      && (forall k :: 0 <= k < |a| ==> s[k] == a[k])
      && (forall k :: |a| + 1 <= k < |s| ==> s[k] == b[k - |a| - 1])
  {
  }

  /** The scan over "word, separator, word", by position: nothing is removed. */
  lemma NoStopWordAfter(s: string, i: nat)
    requires 0 < i <= |s| && AlnumBetween(s, 0, i - 1) && AlnumBetween(s, i, |s|)
    ensures StripStopWords(s) == s
  {
    StripFromRun(s, 0, i);
    StripFromAlnum(s, i);
    assert s[0..i] + s[i..] == s;
  }

  /**
    Two words joined by a separator: no stop word is removed, since the second
    word either continues with a letter or digit or ends the string.
  */
  lemma TwoWordsStripped(a: string, x: char, b: string)
    requires a != [] && IsWord(a) && IsWord(b) && IsPlainSeparator(x)
    ensures StripStopWords(a + [x] + b) == a + [x] + b
  {
    ThreeParts(a, x, b);
    NoStopWordAfter(a + [x] + b, |a| + 1);
  }

  /** Deleting the separators of words and separators leaves the words, joined. */
  lemma JoinedWords(a: string, seps: string, b: string)
    requires IsWord(a) && IsWord(b) && forall k :: 0 <= k < |seps| ==> !IsAlnum(seps[k])
    ensures RemoveSeparators(a + seps + b) == a + b
  {
    RemoveSeparatorsAppend(a + seps, b);
    RemoveSeparatorsAppend(a, seps);
  }

  /**
    Two words joined by a separator key as their concatenation, folded.
    So a leading stop word stays ("The Wire" keys as "thewire") and so does a
    final one ("Man of" keys as "manof").
  */
  lemma CleanTwoWords(a: string, x: char, b: string)
    requires a != [] && IsWord(a) && IsWord(b) && IsPlainSeparator(x)
    ensures CleanSeriesTitle(a + [x] + b) == Fold(a + b)
  {
    var s := a + [x] + b;
    ThreeParts(a, x, b);
    assert !PassesThrough(s) by {
      assert !IsSpace(s[0]) && !IsDigit(s[|a|]);
    }
    ReplaceCharAppend(a + [x], b, '%', "percent");
    ReplaceCharAppend(a, [x], '%', "percent");
    WordHasNoPercent(a);
    WordHasNoPercent(b);
    TwoWordsStripped(a, x, b);
    JoinedWords(a, [x], b);
    CleanByStages(s, s, s, a + b);
  }

  // ---------------------------------------------------------------------------
  // A stop word between two words.

  /** `w` is the alternative `StopWords[n]` in any mix of cases (`re.IGNORECASE`). */
  predicate IsStopWord(w: string, n: nat)
    requires n < |StopWords|
  {
    |w| == |StopWords[n]| && TokenAt(w, 0, StopWords[n])
  }

  /** A stop word, in any case, is made of letters. */
  lemma StopWordIsWord(w: string, n: nat)
    requires n < |StopWords| && IsStopWord(w, n)
    ensures IsWord(w)
  {
    TokenIsAlnum(w, 0, n);
  }

  /** The conditions of Removable, met by a stop word between `[\W_]` and a separator. */
  lemma StopWordRemovable(s: string, i: nat, n: nat)
    requires n < |StopWords| && 0 < i && i + TokenLength(n) < |s|
    requires !IsAlnum(s[i - 1]) && TokenAt(s, i, StopWords[n])
    requires IsPlainSeparator(s[i + TokenLength(n)])
    ensures Removable(s, i, n)
  {
  }

  /**
    A stop word that follows a `[\W_]` character and is followed by a
    separator is removed; the separator after it is kept.
  */
  lemma StopWordDropped(s: string, i: nat, n: nat)
    requires n < |StopWords| && 0 < i && i + TokenLength(n) < |s|
    requires !IsAlnum(s[i - 1]) && TokenAt(s, i, StopWords[n])
    requires IsPlainSeparator(s[i + TokenLength(n)])
    ensures StripFrom(s, i) == [s[i + TokenLength(n)]] + StripFrom(s, i + TokenLength(n) + 1)
  {
    StopWordRemovable(s, i, n);
    MatchAtRemovable(s, i, n);
    StripFromStep(s, i);
    SeparatorKept(s, i + TokenLength(n));
  }

  // ---------------------------------------------------------------------------
  // The scan over any title, word by word.

  /** `w` is one of the alternatives, in any case. */
  predicate IsAnyStopWord(w: string) {
    exists n :: 0 <= n < |StopWords| && IsStopWord(w, n)
  }

  /**
    The word `s[i..j]` goes: it is a stop word, it is not the first word, and
    the `[\W_]` character after it is not Python's end of string.
  */
  predicate Dropped(s: string, i: nat, j: nat)
    requires i <= j <= |s|
  {
    0 < i && IsAnyStopWord(s[i..j]) && !AtDollar(s, j)
  }

  /** A stop word removable at the start of a word spans the whole word. */
  lemma RemovableSpansWord(s: string, i: nat, j: nat, n: nat)
    requires i < j <= |s| && AlnumBetween(s, i, j) && (j == |s| || !IsAlnum(s[j]))
    requires n < |StopWords|
    ensures Removable(s, i, n) ==> TokenLength(n) == j - i && IsStopWord(s[i..j], n)
  {
    if Removable(s, i, n) {
      TokenIsAlnum(s, i, n);
      assert TokenLength(n) == j - i;
      assert forall k :: 0 <= k < j - i ==> s[i..j][k] == s[i + k];
    }
  }

  /** A word that is not dropped is not matched at its start. */
  lemma KeptWordNotMatched(s: string, i: nat, j: nat)
    requires i < j <= |s| && AlnumBetween(s, i, j) && (j == |s| || !IsAlnum(s[j]))
    requires !Dropped(s, i, j)
    ensures MatchAt(s, i).None?
  {
    forall n | 0 <= n < |StopWords| ensures !Removable(s, i, n) {
      RemovableSpansWord(s, i, j, n);
    }
  }

  /** A word that is not dropped survives the scan whole. */
  lemma WordKept(s: string, i: nat, j: nat)
    requires i < j <= |s| && AlnumBetween(s, i, j) && (j == |s| || !IsAlnum(s[j]))
    requires !Dropped(s, i, j)
    ensures StripFrom(s, i) == s[i..j] + StripFrom(s, j)
  {
    KeptWordNotMatched(s, i, j);
    StripFromStep(s, i);
    if i + 1 < j {
      StripFromRun(s, i + 1, j);
      PrependSlice(s, i, j, StripFrom(s, j));
    } else {
      assert s[i..j] == [s[i]];
    }
  }

  /** A dropped word is skipped whole. */
  lemma WordSkipped(s: string, i: nat, j: nat, n: nat)
    requires i < j <= |s| && (i == 0 || !IsAlnum(s[i - 1]))
    requires n < |StopWords| && IsStopWord(s[i..j], n) && Dropped(s, i, j)
    requires j < |s| && !IsAlnum(s[j])
    ensures StripFrom(s, i) == StripFrom(s, j)
  {
    StopWordInSlice(s, i, j, n);
    assert Removable(s, i, n);
    MatchAtRemovable(s, i, n);
    StripFromStep(s, i);
  }

  /** A stop word spelled by the slice `s[i..j]` occurs in `s` at `i`. */
  lemma StopWordInSlice(s: string, i: nat, j: nat, n: nat)
    requires i <= j <= |s| && n < |StopWords| && IsStopWord(s[i..j], n)
    ensures TokenAt(s, i, StopWords[n]) && j == i + TokenLength(n)
  {
    assert forall k :: 0 <= k < j - i ==> s[i..j][k] == s[i + k];
  }

  /**
    One word of a title, a maximal run `s[i..j]` of letters and digits: the
    scan deletes it exactly when it is Dropped and otherwise keeps it whole.
    With SeparatorKept this determines the scan over every title.
  */
  lemma WordStep(s: string, i: nat, j: nat)
    requires i < j <= |s| && AlnumBetween(s, i, j)
    requires i == 0 || !IsAlnum(s[i - 1])
    requires j == |s| || !IsAlnum(s[j])
    ensures StripFrom(s, i) == (if Dropped(s, i, j) then [] else s[i..j]) + StripFrom(s, j)
  {
    if Dropped(s, i, j) {
      var n :| 0 <= n < |StopWords| && IsStopWord(s[i..j], n);
      WordSkipped(s, i, j, n);
    } else {
      WordKept(s, i, j);
    }
  }

  /** A `[\W_]` character is never deleted: no stop word starts with one. */
  lemma SeparatorKept(s: string, j: nat)
    requires j < |s| && !IsAlnum(s[j])
    ensures StripFrom(s, j) == [s[j]] + StripFrom(s, j + 1)
  {
    forall n | 0 <= n < |StopWords| ensures !Removable(s, j, n) {
      if TokenAt(s, j, StopWords[n]) {
        TokenIsAlnum(s, j, n);
      }
    }
    StripFromStep(s, j);
  }

  /** The scan over "word, separator, stop word, separator, word", by position. */
  lemma StopWordBetween(s: string, i: nat, n: nat)
    requires n < |StopWords| && 0 < i && i + TokenLength(n) < |s|
    requires AlnumBetween(s, 0, i - 1) && IsPlainSeparator(s[i - 1])
    requires TokenAt(s, i, StopWords[n]) && IsPlainSeparator(s[i + TokenLength(n)])
    requires AlnumBetween(s, i + TokenLength(n) + 1, |s|)
    ensures StripStopWords(s) == s[..i] + [s[i + TokenLength(n)]] + s[i + TokenLength(n) + 1..]
  {
    var j := i + TokenLength(n);
    StripFromRun(s, 0, i);
    StopWordDropped(s, i, n);
    StripFromAlnum(s, j + 1);
  }

  /** Where the parts of "word, separator, stop word, separator, word" lie. */
  lemma FiveParts(a: string, x: char, w: string, y: char, b: string)
    ensures var s := a + [x] + w + [y] + b;
      var i := |a| + 1;
      var j := i + |w|;
      && |s| == j + 1 + |b|
      && s[..i] == a + [x] && s[i - 1] == x && s[i..j] == w && s[j] == y && s[j + 1..] == b
      && (forall k :: 0 <= k < |a| ==> s[k] == a[k])
      && (forall k :: i <= k < j ==> s[k] == w[k - i])
      && (forall k :: j + 1 <= k < |s| ==> s[k] == b[k - j - 1])
  {
  }

  /**
    In a three-word title "word separator stop-word separator word", the stop
    word, in any case, is removed.
  */
  lemma InteriorStopWordStripped(a: string, x: char, w: string, n: nat, y: char, b: string)
    requires n < |StopWords| && IsStopWord(w, n)
    requires a != [] && IsWord(a) && IsWord(b) && IsPlainSeparator(x) && IsPlainSeparator(y)
    ensures StripStopWords(a + [x] + w + [y] + b) == a + [x, y] + b
  {
    var s := a + [x] + w + [y] + b;
    var i := |a| + 1;
    FiveParts(a, x, w, y, b);
    assert TokenAt(s, i, StopWords[n]) by {
      assert forall k :: 0 <= k < |w| ==> s[i + k] == w[k];
    }
    StopWordBetween(s, i, n);
    assert a + [x] + [y] + b == a + [x, y] + b;
  }

  /** "word, separator, word, separator, word" is not passed through. */
  lemma ThreeWordsNotPassing(a: string, x: char, w: string, y: char, b: string)
    requires a != [] && IsWord(a) && IsPlainSeparator(x)
    ensures !PassesThrough(a + [x] + w + [y] + b)
  {
    var s := a + [x] + w + [y] + b;
    assert s[0] == a[0] && s[|a|] == x;
    assert !IsSpace(s[0]) && !IsDigit(s[|a|]);
  }

  /** "word, separator, word, separator, word" holds no `%`. */
  lemma ThreeWordsNoPercent(a: string, x: char, w: string, y: char, b: string)
    requires IsWord(a) && IsWord(w) && IsWord(b) && IsPlainSeparator(x) && IsPlainSeparator(y)
    ensures ReplaceChar(a + [x] + w + [y] + b, '%', "percent") == a + [x] + w + [y] + b
  {
    assert '%' !in a && '%' !in w && '%' !in b;
    assert '%' !in a + [x] + w + [y] + b;
  }

  /** The key of "`a` stop-word `b`" is the key of `a` and `b` joined. */
  lemma CleanInteriorStopWord(a: string, x: char, w: string, n: nat, y: char, b: string)
    requires n < |StopWords| && IsStopWord(w, n)
    requires a != [] && IsWord(a) && IsWord(b) && IsPlainSeparator(x) && IsPlainSeparator(y)
    ensures CleanSeriesTitle(a + [x] + w + [y] + b) == Fold(a + b)
  {
    var s := a + [x] + w + [y] + b;
    StopWordIsWord(w, n);
    ThreeWordsNotPassing(a, x, w, y, b);
    ThreeWordsNoPercent(a, x, w, y, b);
    InteriorStopWordStripped(a, x, w, n, y, b);
    JoinedWords(a, [x, y], b);
    CleanByStages(s, s, a + [x, y] + b, a + b);
  }

  // ---------------------------------------------------------------------------
  // Two stop words in a row.

  /** Where the parts of "word, separator, stop word, separator, stop word, separator, word" lie. */
  lemma SevenParts(a: string, x: char, v: string, y: char, w: string, z: char, b: string)
    ensures var s := a + [x] + v + [y] + w + [z] + b;
      var i := |a| + 1;
      var j := i + |v| + 1;
      var k := j + |w| + 1;
      && |s| == k + |b|
      && s[..i] == a + [x] && s[i - 1] == x && s[j - 1] == y && s[k - 1] == z && s[k..] == b
      && (forall p :: 0 <= p < |a| ==> s[p] == a[p])
      && (forall p :: i <= p < j - 1 ==> s[p] == v[p - i])
      && (forall p :: j <= p < k - 1 ==> s[p] == w[p - j])
      && (forall p :: k <= p < |s| ==> s[p] == b[p - k])
  {
  }

  /** Two stop words in a row, each followed by a separator, both go; the separators stay. */
  lemma TwoStopWordsDropped(s: string, i: nat, m: nat, j: nat, n: nat)
    requires m < |StopWords| && n < |StopWords|
    requires 0 < i && j == i + TokenLength(m) + 1 && j + TokenLength(n) < |s|
    requires !IsAlnum(s[i - 1]) && TokenAt(s, i, StopWords[m]) && IsPlainSeparator(s[j - 1])
    requires TokenAt(s, j, StopWords[n]) && IsPlainSeparator(s[j + TokenLength(n)])
    ensures StripFrom(s, i) == [s[j - 1], s[j + TokenLength(n)]] + StripFrom(s, j + TokenLength(n) + 1)
  {
    StopWordDropped(s, j, n);
    StopWordDropped(s, i, m);
  }

  /**
    The scan over "word, separator, stop word, separator, stop word,
    separator, word", by position.
  */
  lemma StopWordsBetween(s: string, i: nat, m: nat, j: nat, n: nat)
    requires m < |StopWords| && n < |StopWords|
    requires 0 < i && j == i + TokenLength(m) + 1 && j + TokenLength(n) < |s|
    requires AlnumBetween(s, 0, i - 1) && IsPlainSeparator(s[i - 1])
    requires TokenAt(s, i, StopWords[m]) && IsPlainSeparator(s[j - 1])
    requires TokenAt(s, j, StopWords[n]) && IsPlainSeparator(s[j + TokenLength(n)])
    requires AlnumBetween(s, j + TokenLength(n) + 1, |s|)
    ensures StripStopWords(s) == s[..i] + [s[j - 1], s[j + TokenLength(n)]] + s[j + TokenLength(n) + 1..]
  {
    StripFromRun(s, 0, i);
    StopWordsThenWord(s, i, m, j, n);
  }

  /** The scan from the first of two stop words on, when a word ends the title. */
  lemma StopWordsThenWord(s: string, i: nat, m: nat, j: nat, n: nat)
    requires m < |StopWords| && n < |StopWords|
    requires 0 < i && j == i + TokenLength(m) + 1 && j + TokenLength(n) < |s|
    requires !IsAlnum(s[i - 1]) && TokenAt(s, i, StopWords[m]) && IsPlainSeparator(s[j - 1])
    requires TokenAt(s, j, StopWords[n]) && IsPlainSeparator(s[j + TokenLength(n)])
    requires AlnumBetween(s, j + TokenLength(n) + 1, |s|)
    ensures StripFrom(s, i) == [s[j - 1], s[j + TokenLength(n)]] + s[j + TokenLength(n) + 1..]
  {
    TwoStopWordsDropped(s, i, m, j, n);
    StripFromAlnum(s, j + TokenLength(n) + 1);
  }

  /** The scan deletes both of two consecutive interior stop words, and only them. */
  lemma TwoStopWordsStripped(a: string, x: char, v: string, m: nat, y: char, w: string, n: nat, z: char, b: string)
    requires m < |StopWords| && n < |StopWords| && IsStopWord(v, m) && IsStopWord(w, n)
    requires a != [] && IsWord(a) && IsWord(b) && IsPlainSeparator(x) && IsPlainSeparator(y) && IsPlainSeparator(z)
    ensures StripStopWords(a + [x] + v + [y] + w + [z] + b) == a + [x, y, z] + b
  {
    var s := a + [x] + v + [y] + w + [z] + b;
    var i := |a| + 1;
    var j := i + |v| + 1;
    SevenParts(a, x, v, y, w, z, b);
    assert TokenAt(s, i, StopWords[m]) by {
      assert forall p :: 0 <= p < |v| ==> s[i + p] == v[p];
    }
    assert TokenAt(s, j, StopWords[n]) by {
      assert forall p :: 0 <= p < |w| ==> s[j + p] == w[p];
    }
    StopWordsBetween(s, i, m, j, n);
    assert a + [x] + [y, z] + b == a + [x, y, z] + b;
  }

  /** "word, separator, stop word, separator, stop word, separator, word" holds no `%`. */
  lemma FourWordsNoPercent(a: string, x: char, v: string, y: char, w: string, z: char, b: string)
    requires IsWord(a) && IsWord(v) && IsWord(w) && IsWord(b)
    requires IsPlainSeparator(x) && IsPlainSeparator(y) && IsPlainSeparator(z)
    ensures ReplaceChar(a + [x] + v + [y] + w + [z] + b, '%', "percent") == a + [x] + v + [y] + w + [z] + b
  {
    assert '%' !in a && '%' !in v && '%' !in w && '%' !in b;
    assert '%' !in a + [x] + v;
    assert '%' !in a + [x] + v + [y] + w;
    assert '%' !in a + [x] + v + [y] + w + [z] + b;
  }

  /** The key of "`a` stop-word stop-word `b`" is the key of `a` and `b` joined. */
  lemma CleanTwoInteriorStopWords(a: string, x: char, v: string, m: nat, y: char, w: string, n: nat, z: char, b: string)
    requires m < |StopWords| && n < |StopWords| && IsStopWord(v, m) && IsStopWord(w, n)
    requires a != [] && IsWord(a) && IsWord(b) && IsPlainSeparator(x) && IsPlainSeparator(y) && IsPlainSeparator(z)
    ensures CleanSeriesTitle(a + [x] + v + [y] + w + [z] + b) == Fold(a + b)
  {
    var s := a + [x] + v + [y] + w + [z] + b;
    StopWordIsWord(v, m);
    StopWordIsWord(w, n);
    assert !PassesThrough(s) by {
      SevenParts(a, x, v, y, w, z, b);
      assert !IsSpace(s[0]) && !IsDigit(s[|a|]);
    }
    FourWordsNoPercent(a, x, v, y, w, z, b);
    TwoStopWordsStripped(a, x, v, m, y, w, n, z, b);
    JoinedWords(a, [x, y, z], b);
    CleanByStages(s, s, a + [x, y, z] + b, a + b);
  }

  // ---------------------------------------------------------------------------
  // Percent.

  /** The first rewrite on "word% word". */
  lemma PercentReplaced(a: string, b: string)
    requires IsWord(a) && IsWord(b)
    ensures ReplaceChar(a + ['%', ' '] + b, '%', "percent") == (a + "percent") + [' '] + b
  {
    ReplaceCharAppend(a + ['%', ' '], b, '%', "percent");
    ReplaceCharAppend(a, ['%', ' '], '%', "percent");
    WordHasNoPercent(a);
    WordHasNoPercent(b);
    assert ReplaceChar(['%', ' '], '%', "percent") == "percent" + [' '];
  }

  /** `%` is spelled out before anything else: "`a`% `b`" keys as "`a`percent`b`". */
  lemma CleanPercent(a: string, b: string)
    requires IsWord(a) && IsWord(b)
    ensures CleanSeriesTitle(a + ['%', ' '] + b) == Fold(a + "percent" + b)
  {
    var s := a + ['%', ' '] + b;
    assert !PassesThrough(s) by {
      assert s[|a|] == '%';
    }
    PercentReplaced(a, b);
    var p := a + "percent";
    assert IsWord(p) by {
      assert forall k :: 0 <= k < |p| ==> IsAlnum(p[k]);
    }
    TwoWordsStripped(p, ' ', b);
    JoinedWords(p, [' '], b);
    CleanByStages(s, p + [' '] + b, p + [' '] + b, p + b);
  }
}
