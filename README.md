# tagarr: manual scene aliases and the clean-title key

tagarr is a small web overlay for a series tracker's SQLite database. It lets a
user add and remove *manual* scene aliases for a series. These are rows in the
tracker's `SceneMappings` table with `Type = "ManualMapping"` and
`SceneOrigin = "manual"`. It also lists each series' aliases. Every alias is
stored under a *parse term*. That is the tracker's "clean title" key, and
`clean_series_title` computes it again in Python.

The project models two things:

- **The clean-title key** (`SeriesTitle`, with `PyStrings` and `UnicodeTables`
  beneath it). It is a chain of pure string rewrites:
  1. pass empty, blank and all-digit titles through;
  2. spell `%` out;
  3. delete interior stop words;
  4. delete runs of `[\W_]`;
  5. lower-case;
  6. decompose (NFD) and drop combining marks.

  The stop-word regular expression is modelled as the left-to-right scan
  `re.sub` performs. Its lookarounds are written out as they are, including
  Python's `$`, which also matches just before a final newline. A lemma then
  restates the match condition in plain terms: a stop word goes only when a
  `[\W_]` character precedes it and another `[\W_]` character, which is not
  Python's end of string, follows it.
  - `TitleRules` proves the general rules on titles built from words.
    `WordStep` and `SeparatorKept` give the scan over any title, one word
    or one separator at a time.
  - `TitleExamples` proves worked titles as instances of those rules.
- **The alias handlers** (`SceneMappings`). These are `add_alias`,
  `remove_alias` and the alias listing in `search`. They are methods of a
  class `AliasTable`, which holds the rows of `SceneMappings` and the next
  `AUTOINCREMENT` id. The SQL statements become functions over the rows.
  `ORDER BY "Type", "Id"` becomes an insertion sort under SQLite's BINARY
  collation (`SqlOrder`). The constants `MANUAL_TYPE` and `MANUAL_ORIGIN`
  (app.py:11-12) are `ManualType` and `ManualOrigin`.

A leading stop word is kept. The pattern at app.py:28 cannot match at
position 0 (`(?<!^)`), so "The Wired" keys as "thewired" and "The Wire" as
"thewire": see `TitleRules.CleanTwoWords` and `TitleExamples.TheWire`. The
match ignores case (`re.IGNORECASE`), so "Man Of Steel" and "Man of Steel"
both key as "mansteel". Consecutive interior stop words all go, because every
lookbehind reads the original title: "Lord of the Rings" keys as "lordrings"
(`TitleExamples.LordOfTheRings`). A leading stop word stays even when another
follows it, so "The A Team" keys as "theteam" (`TitleExamples.TheATeam`), and
a final one stays by `(?!$)`.

## Model

| member | source | states |
|---|---|---|
| SeriesTitle.CleanSeriesTitle | app.py:21-35 | an empty, blank or all-digit title is returned unchanged; any other title gives a clean key: only lower-case letters and digits, no `_`, no `%`, no separator, no combining mark and no decomposable character |
| SeriesTitle.Rewrite | app.py:26-34 | the rewrite chain on a title that does not pass through always yields a clean key |
| PyStrings.Strip | app.py:22 | `strip()` is empty exactly when every character is whitespace; otherwise it starts and ends with a non-space |
| PyStrings.StripLeading | app.py:22 | a suffix of the input; everything dropped is whitespace and what is kept does not start with whitespace |
| PyStrings.StripTrailing | app.py:22 | a prefix of the input; everything dropped is whitespace and what is kept does not end with whitespace |
| PyStrings.ReplaceChar | app.py:26 | after `replace("%", "percent")` no `%` remains; a title without `%` is untouched |
| PyStrings.ReplaceCharLength | app.py:26 | the length grows by six for each `%` in the title |
| PyStrings.ReplaceCharAppend | app.py:26 | the replacement works occurrence by occurrence: it commutes with concatenation |
| PyStrings.Nfd | app.py:33 | NFD never shortens a string and leaves a string without decomposable characters alone |
| UnicodeTables.IsSpace | app.py:22 | no contract; `str.isspace`, the set a bare `strip()` removes; used by PyStrings.Strip and PassesThrough |
| UnicodeTables.IsDigit | app.py:24 | no contract; `isdigit` on the modelled alphabet: the ASCII digits |
| UnicodeTables.IsWordChar | app.py:28 | no contract; the regex class `\w`: letters, digits and `_` |
| UnicodeTables.IsAlnum | app.py:31 | no contract; `[^\W_]`, a word character other than `_`; what RemoveSeparators keeps |
| UnicodeTables.IsMn | app.py:34 | no contract; category Mn: the three combining marks; what DropMarks removes |
| UnicodeTables.LowerChar | app.py:32 | no contract; `lower()` of one character: ASCII and the three accented capitals; used by Lower and TokenAt |
| UnicodeTables.Decomposition | app.py:33-34 | a character decomposes into a base of the same class and case, followed only by combining marks; it is itself exactly when it has no decomposition |
| SeriesTitle.TokenLength | app.py:28 | the length of each stop-word alternative, where the scan resumes after a match |
| SeriesTitle.StopWordsAreLowerLetters | app.py:28 | every alternative of the stop-word group is a non-empty run of lower-case letters |
| SeriesTitle.StripFrom | app.py:27-30 | no contract; the `re.sub` scan resumed at a position, characterised by StripFromStep, StripFromKeepsSeparators, StripFromAlnum, StripFromRun, TitleRules.WordStep and TitleRules.SeparatorKept |
| SeriesTitle.StripStopWords | app.py:27-30 | no contract; the whole substitution, characterised by StripStopWordsKeepsFirst, StripStopWordsKeepsSeparators and the TitleRules stripping lemmas |
| SeriesTitle.PassesThrough | app.py:22-25 | no contract; a title returned unchanged: every character whitespace (so empty or blank) or all digits, as CleanSeriesTitle's first ensures uses it |
| SeriesTitle.Fold | app.py:32-34 | no contract; lower-case, NFD, then drop Mn, characterised by LowerAlnumDecomposesToKeys, Rewrite and TitleExamples.FoldPlain |
| PyStrings.Lower | app.py:32 | no contract; `lower()` as `LowerChar` on every character, used by Fold and TitleExamples.FoldPlain |
| PyStrings.IsDigitString | app.py:24 | no contract; `isdigit()`: non-empty and digits only |
| SeriesTitle.WordAt | app.py:28 | no contract; a `\w` character at a position, none outside the string; the ground of `\b` |
| SeriesTitle.WordBoundary | app.py:28 | no contract; `\b` between two positions, reduced by FitsIffRemovable |
| SeriesTitle.AtDollar | app.py:28 | no contract; Python's `$` without MULTILINE: the end, or just before a final newline; used by Removable and TitleRules.Dropped |
| SeriesTitle.MayStart | app.py:28 | no contract; `(?<=\b)` or `(?<=_)`, then `(?<!^)`, at the token's start, reduced by FitsIffRemovable |
| SeriesTitle.MayEnd | app.py:28 | no contract; `(?!$)`, then `\b` or `_` ahead, at the token's end, reduced by FitsIffRemovable |
| SeriesTitle.TokenAt | app.py:28-29 | no contract; the `re.IGNORECASE` literal match of an alternative, characterised by TokenIsAlnum |
| SeriesTitle.Fits | app.py:28 | no contract; the whole pattern matching one alternative at a position, equal to Removable by FitsIffRemovable |
| SeriesTitle.Removable | app.py:28 | no contract; the plain-terms condition: a `[\W_]` character before the token and one after it that is not `$`; used by MatchAt, RemovableUnique and MatchAtRemovable |
| SeriesTitle.FirstFit | app.py:28 | the first alternative, in pattern order, whose lookarounds all hold at the position, and none before it holds |
| SeriesTitle.FitsIffRemovable | app.py:28 | the pattern's lookarounds hold exactly when a `[\W_]` character precedes the token and a `[\W_]` character that is not Python's `$` follows it |
| SeriesTitle.MatchAt | app.py:27-30 | a match is removable under that condition; no match means no stop word is removable at the position |
| SeriesTitle.TokenIsAlnum | app.py:28 | a case-insensitive occurrence of a stop word consists of letters |
| SeriesTitle.StopWordsDistinct | app.py:28 | the seven alternatives are pairwise different |
| SeriesTitle.RemovableUnique | app.py:28 | at most one stop word is removable at a position, so the order of the alternatives never changes the result |
| SeriesTitle.MatchAtRemovable | app.py:27-30 | a stop word removable at a position is the one the substitution deletes there |
| SeriesTitle.StripStopWordsKeepsFirst | app.py:28 | the first character always survives the stop-word pass (`(?<!^)`) |
| SeriesTitle.StripFromStep | app.py:27-30 | one step of the scan: a match skips its token, otherwise the character is kept |
| SeriesTitle.StripFromKeepsSeparators | app.py:27-30 | the stop-word pass deletes only letters: every `[\W_]` character survives, in order |
| SeriesTitle.StripStopWordsKeepsSeparators | app.py:27-30 | the same, for the whole title |
| SeriesTitle.SkippedTokenHasNoSeparators | app.py:27-30 | skipping a matched token skips no `[\W_]` character |
| SeriesTitle.KeptCharSeparators | app.py:27-30 | keeping one character keeps its `[\W_]` status in front of the rest |
| SeriesTitle.StripFromAlnum | app.py:27-30 | a suffix of letters and digits passes the stop-word scan unchanged |
| SeriesTitle.KeptAfterAlnum | app.py:27-30 | a character that starts the string or follows a letter or digit is kept |
| SeriesTitle.StripFromRun | app.py:27-30 | a run of letters and digits that starts the string or follows a letter or digit survives the scan whole |
| SeriesTitle.StripFromRunStep | app.py:27-30 | one step of that run: the kept character goes in front of the surviving rest |
| SeriesTitle.StripFromRunLast | app.py:27-30 | the last character of that run is kept |
| SeriesTitle.RemoveSeparators | app.py:31 | `re.sub(r"[\W_]+", "")` leaves only letters and digits, keeps an all-alphanumeric string whole and empties an all-separator one |
| SeriesTitle.RemoveSeparatorsAppend | app.py:31 | deleting separators commutes with concatenation |
| SeriesTitle.DropMarks | app.py:34 | the filter on category Mn leaves no combining mark and keeps a string without marks whole |
| SeriesTitle.DropMarksAppend | app.py:34 | the filter commutes with concatenation |
| SeriesTitle.DropMarksAllMarks | app.py:34 | a string of combining marks disappears |
| SeriesTitle.LowerAlnumDecomposesToKeys | app.py:32-34 | decomposing lower-case letters and digits and dropping the marks yields key characters only |
| SeriesTitle.Separators | app.py:31 | the `[\W_]` characters of a string, none of them a letter or digit |
| SeriesTitle.SeparatorsAppend | app.py:31 | collecting separators commutes with concatenation |
| SeriesTitle.SeparatorsOfAlnum | app.py:31 | a run of letters and digits has no separators |
| SeriesTitle.RewriteFixesCleanKey | app.py:26-34 | each rewrite leaves a clean key unchanged: no `%`, no removable stop word, no separator, nothing to lower-case or decompose |
| SeriesTitle.CleanKeyIsFixed | app.py:21-35 | a clean key is a fixed point of `clean_series_title` |
| SeriesTitle.CleanIdempotent | app.py:21-35 | cleaning a cleaned title gives the same key, for every title |
| TitleRules.CleanByStages | app.py:21-35 | on a title that does not pass through, the key is the fold of the three rewrite stages |
| TitleRules.WordHasNoPercent | app.py:26 | a word has no `%`, so the first rewrite leaves it alone |
| TitleRules.NoStopWordAfter | app.py:27-30 | a title whose only non-alphanumeric character is at position i-1 passes the scan unchanged |
| TitleRules.TwoWordsStripped | app.py:27-30 | two words joined by a separator keep both words: a leading word and a final word are never stop words that go |
| TitleRules.JoinedWords | app.py:31 | deleting the separators between two words joins them |
| TitleRules.CleanTwoWords | app.py:21-35 | "word separator word" keys as the fold of the two words joined, so a leading "The" and a final "of" stay |
| TitleRules.StopWordIsWord | app.py:28-29 | a stop word, in any case, is a word of letters |
| TitleRules.StopWordRemovable | app.py:28 | a stop word, in any case, preceded by `[\W_]` and followed by a separator that is not last meets the removal condition |
| TitleRules.StopWordDropped | app.py:27-30 | a stop word, in any case, preceded by `[\W_]` and followed by a separator is deleted, and the separator after it is kept |
| TitleRules.StopWordBetween | app.py:27-30 | in "word separator stop-word separator word", the scan deletes exactly the stop word, whatever its case |
| TitleRules.InteriorStopWordStripped | app.py:27-30 | in a three-word title "word separator stop-word separator word", the stop word is deleted, whichever of the seven it is and whatever its case |
| TitleRules.ThreeWordsNotPassing | app.py:22-25 | a title that starts with a word and then a separator does not pass through unchanged |
| TitleRules.ThreeWordsNoPercent | app.py:26 | "word separator word separator word" has no `%`, so the first rewrite leaves it alone |
| TitleRules.CleanInteriorStopWord | app.py:21-35 | "word separator stop-word separator word" keys as the fold of the two words joined, whatever the stop word's case |
| TitleRules.Dropped | app.py:28 | no contract; the word-level removal condition: a stop word in any case, not at position 0, and not followed by Python's `$`; characterised by WordStep |
| TitleRules.RemovableSpansWord | app.py:28 | a stop word removable at the start of a word is the whole word |
| TitleRules.KeptWordNotMatched | app.py:27-30 | the pattern does not match at the start of a word that is not Dropped |
| TitleRules.WordKept | app.py:27-30 | a word that is not Dropped survives the scan whole |
| TitleRules.StopWordInSlice | app.py:28 | a stop word spelled by a slice occurs in the title at its start |
| TitleRules.WordSkipped | app.py:27-30 | a Dropped word followed by a separator is skipped whole |
| TitleRules.WordStep | app.py:27-30 | for any title and any maximal run of letters and digits in it: the scan deletes the run exactly when it is a stop word in any case, not at position 0, and followed by a `[\W_]` character that is not Python's `$`; otherwise it keeps the run whole |
| TitleRules.SeparatorKept | app.py:27-30 | a `[\W_]` character is never deleted and the scan goes on after it |
| TitleRules.TwoStopWordsDropped | app.py:27-30 | two stop words in a row, each followed by a separator, both go and the separators stay |
| TitleRules.StopWordsThenWord | app.py:27-30 | the same, with a final word after them, which stays |
| TitleRules.StopWordsBetween | app.py:27-30 | in "word sep stop-word sep stop-word sep word", the scan deletes exactly the two stop words |
| TitleRules.TwoStopWordsStripped | app.py:27-30 | the same, stated on the parts of the title |
| TitleRules.FourWordsNoPercent | app.py:26 | such a title has no `%`, so the first rewrite leaves it alone |
| TitleRules.CleanTwoInteriorStopWords | app.py:21-35 | "word sep stop-word sep stop-word sep word" keys as the fold of the two outer words joined |
| TitleRules.PercentReplaced | app.py:26 | "word% word" becomes "wordpercent word" |
| TitleRules.CleanPercent | app.py:21-35 | "word% word" keys as the fold of "wordpercentword" |
| TitleExamples.FoldPlain | app.py:32-34 | folding letters and digits without accents is plain lower-casing |
| TitleExamples.ManOfSteel | app.py:21-35 | "Man of Steel" keys as "mansteel" |
| TitleExamples.ManOfSteelCapital | app.py:21-35 | "Man Of Steel" keys as "mansteel" too: the stop-word match ignores case |
| TitleExamples.LordOfTheRings | app.py:21-35 | "Lord of the Rings" keys as "lordrings": both interior stop words go |
| TitleExamples.TheATeam | app.py:21-35 | "The A Team" keys as "theteam": a leading stop word stays even before another, which goes |
| TitleExamples.TheWire | app.py:21-35 | "The Wire" keys as "thewire": the leading stop word stays |
| TitleExamples.ManOf | app.py:21-35 | "Man of" keys as "manof": a final stop word stays |
| TitleExamples.HundredPercentLove | app.py:21-35 | "100% Love" keys as "100percentlove" |
| TitleExamples.FastAndFurious | app.py:21-35 | "Fast_and_Furious" keys as "fastfurious": `_` separates words like a space |
| SceneMappings.FindManual | app.py:111-114 | the duplicate lookup finds a manual row with the same series and parse term, and finds none exactly when there is none; non-manual rows never count |
| SceneMappings.FindById | app.py:144-147 | the lookup by id finds a row with that id, and finds none exactly when there is none |
| SceneMappings.DeleteId | app.py:155 | after the DELETE, a row remains exactly when it was there and has another id |
| SceneMappings.DeleteIdIsSplice | app.py:155 | with distinct ids, the DELETE removes exactly the one row with the id and keeps the others in order |
| SceneMappings.NoIdNoDelete | app.py:155 | a DELETE of an id no row has changes nothing |
| SceneMappings.RowsFor | app.py:70-73 | the rows of the alias query are exactly the table's rows of that series, each as often as it occurs in the table |
| SceneMappings.MaxId | app.py:119-124 | the largest id in use (0 for an empty table), from which the next id is drawn |
| SceneMappings.RowLe | app.py:74 | no contract; the comparator of `ORDER BY "Type", "Id"`: BINARY order on `Type`, then `Id`; characterised by RowLeTotal and RowLeTransitive |
| SceneMappings.RowLeTotal | app.py:74 | any two rows are ordered one way or the other by (`Type`, `Id`) |
| SceneMappings.RowLeTransitive | app.py:74 | the order by (`Type`, `Id`) is transitive |
| SqlOrder.TextLe | app.py:74 | no contract; BINARY collation, code point by code point with a prefix first, characterised by TextLeTotal, TextLeAntisymmetric and TextLeTransitive |
| SqlOrder.TextLeTotal | app.py:74 | BINARY collation orders any two texts |
| SqlOrder.TextLeAntisymmetric | app.py:74 | texts ordered both ways are equal |
| SqlOrder.TextLeTransitive | app.py:74 | BINARY collation is transitive |
| SceneMappings.InsertOrdered | app.py:74 | the insertion step of the sort adds exactly that row |
| SceneMappings.ConsSorted | app.py:74 | a row that precedes an ordered sequence extends it in order |
| SceneMappings.PrecedesAll | app.py:74 | a row that precedes every element of a sequence precedes every element of a rearrangement of it |
| SceneMappings.InsertSorted | app.py:74 | inserting into an ordered sequence keeps it ordered |
| SceneMappings.SortByTypeId | app.py:74 | `ORDER BY "Type", "Id"` gives the same rows, ordered by `Type` and then `Id` |
| SceneMappings.AliasesFor | app.py:70-76 | a series' aliases are exactly its rows, with the same multiplicity, ordered by `Type` and then `Id` |
| SceneMappings.DistinctIdsOnce | app.py:119-124 | in a table with distinct ids, no row occurs twice |
| SceneMappings.AliasesForIdsDistinct | app.py:70-76 | in a table with distinct ids, a series' alias listing has distinct ids, so each row is listed once |
| SceneMappings.Entries | app.py:68-90 | one entry per matched series, in the matched order, each listing that series' aliases |
| SceneMappings.EntryFor | app.py:78-90 | no contract; the response dict of one series: its id, title, year, status and ToAliasViews of AliasesFor |
| SceneMappings.ToAliasView | app.py:83-89 | an alias shows its id, title and search term; its season is hidden exactly when `SeasonNumber` is null or negative; it is manual exactly when `Type` is `ManualMapping` |
| SceneMappings.ToAliasViews | app.py:83-89 | the response lists one view per alias row, in the rows' order |
| SceneMappings.NewManualRow | app.py:119-135 | the inserted row is a manual row of the series under the cleaned title and the new id |
| SceneMappings.AppendKeepsManualKeysUnique | app.py:111-135 | inserting a manual row whose key is free keeps at most one manual row per series and parse term |
| SceneMappings.AppendKeepsIds | app.py:119-124 | inserting under the next id keeps ids distinct and below the counter |
| SceneMappings.SpliceKeepsIds | app.py:155 | removing one row keeps ids distinct and below the counter |
| SceneMappings.DeleteKeepsManualKeysUnique | app.py:155 | a DELETE keeps at most one manual row per series and parse term |
| SceneMappings.AddedAliasIsListed | app.py:119-135 | after an insert, the new row is listed as a manual alias of its series in `search` |
| SceneMappings.RemovedAliasIsNotListed | app.py:155 | after a DELETE, no series lists an alias with the removed id |
| SceneMappings.MissingRequired | app.py:103 | no contract; the 400 condition: no series id, a zero id, or a title that strips to nothing, as AddAlias's ensures uses it |
| SceneMappings.AliasTable.constructor | app.py:15-18 | a table over existing rows with distinct ids; the next id follows the largest in use |
| SceneMappings.AliasTable.AddAlias | app.py:95-138 | 400 when the series id or stripped title is missing; 400 when the title cleans to nothing; 409 when a manual row with that series and parse term exists (a non-manual one does not block); the table is unchanged in all three; otherwise exactly one row is appended (manual type and origin, parse term = cleaned title, search term = stripped search term or else the title, season or -1) and the id counter moves on; at most one manual row per key is preserved |
| SceneMappings.AliasTable.Insert | app.py:119-135 | the INSERT appends exactly the row and moves the id counter on; ids stay distinct and below the counter, and a free manual key keeps manual keys unique |
| SceneMappings.AliasTable.RemoveAlias | app.py:141-158 | 404 when no row has the id and 403 when its row is not manual, with the table unchanged in both; otherwise exactly that row is removed and all others stay, in order; the unique-key rule is preserved |
| SceneMappings.AliasTable.Delete | app.py:155 | the DELETE removes exactly the row at the found position and keeps the others in order; ids stay distinct and manual keys unique |
| SceneMappings.AliasTable.Search | app.py:53-92 | an empty or blank query gives no results; otherwise the result is `Entries` of the matched series: one entry per series, in the matched order, each listing the series' aliases as above |

## Left out

- Flask routing, request parsing, `jsonify`, `render_template` and the index and health endpoints are not modelled. They are presentation and I/O. A handler's outcome is the `Status` datatype, with the HTTP code in a comment.
- The SQLite connection, the transaction and `commit` are not modelled. The table is an in-memory sequence of rows, and each statement acts on it atomically.
- The series query of `search` is not modelled: its `LIKE` matching, `CleanTitle` column and `ORDER BY "Title"`. Their meaning depends on the database. `AliasTable.Search` takes the rows that query returned as the parameter `matched`.
- The full Unicode character database is not modelled. The alphabet is ASCII, à À é É ü Ü, the three combining marks their decompositions produce, and every character `str.isspace` accepts (NEL, NBSP, U+1680, U+2000 to U+200A, U+2028, U+2029, U+202F, U+205F, U+3000), so `strip()` removes what Python's removes. Any other character is treated as a symbol outside `\w` that lower-casing and NFD leave alone.
- UnicodeTables.Decomposition: U+2000 and U+2001 canonically decompose to U+2002 and U+2003, which the table leaves out. No key depends on it, since whitespace is deleted before NFD.
- SeriesTitle.CleanSeriesTitle: for a title with a letter or digit outside the modelled alphabet the key differs from Python's. Such a character is treated as a separator and deleted, so "Señor" keys as "seor" where Python gives "senor". A non-ASCII digit also escapes the pass-through branch: Python's `"١".isdigit()` holds, so app.py:24-25 returns "١" unchanged, while the model gives the empty key, and `AddAlias` answers `EmptyParseTerm` (400) where the source inserts a row. `CleanIdempotent` and the `TitleRules` lemmas hold for the model over all strings.
- SeriesTitle.CleanSeriesTitle: a `None` title is not modelled, because a string is never null here. The only caller passes a stripped string.
- AliasTable.AddAlias: the request fields are typed. `tvdb_id` is an optional integer, and JSON values of other types are not modelled. A `title` or `search_term` sent as JSON `null`, which makes `strip()` raise in the source, is not modelled either.
- AliasTable.AddAlias: the table's other constraints are not modelled, such as foreign keys and column types. Only the rules the handler checks are.
- AliasTable.constructor: the `AUTOINCREMENT` counter starts after the largest id in use. SQLite's own counter can be higher, since it remembers ids of deleted rows; the model promises only that each new id is fresh.
- Concurrent requests are not modelled. Each handler runs on its own.
- The movie-title variant, the reconciliation ledger and network-paired aliases are not modelled. app.py does not implement them.
