/**
  The manual-alias handlers of app.py (`add_alias`, `remove_alias` and the
  alias listing of `search`) over an in-memory model of the series tracker's
  `SceneMappings` table.  The SQL statements become queries over a sequence of
  rows; the decision logic around them is kept as written.
*/
module SceneMappings {
  import opened Optional
  import opened PyStrings
  import opened SeriesTitle
  import opened SqlOrder

  /** `MANUAL_TYPE`: the `Type` of every row this overlay writes. */
  const ManualType: string := "ManualMapping"
  /** `MANUAL_ORIGIN`: the `SceneOrigin` of every row this overlay writes. */
  const ManualOrigin: string := "manual"
  /** The `Comment` of every row this overlay writes. */
  const ManualComment: string := "Manual alias"

  /** One row of `SceneMappings`; nullable columns are options. */
  datatype Row = Row(
    Id: int,
    Title: string,
    ParseTerm: string,
    SearchTerm: string,
    TvdbId: int,
    SeasonNumber: Option<int>,
    SceneSeasonNumber: Option<int>,
    SceneOrigin: Option<string>,
    SearchMode: int,
    Comment: Option<string>,
    FilterRegex: Option<string>,
    Type: string)

  /** One row of `Series`, as the series query returns it. */
  datatype Series = Series(TvdbId: int, Title: string, Year: int, Status: int)

  /** One element of a series' `aliases` list in the `search` response. */
  datatype AliasView = AliasView(id: int, title: string, searchTerm: string, season: Option<int>, manual: bool)

  /** One element of the `search` response. */
  datatype SeriesEntry = SeriesEntry(tvdbId: int, title: string, year: int, status: int, aliases: seq<AliasView>)

  /** The outcome of a handler, with the HTTP status it is reported as. */
  datatype Status =
    | Ok              // 200
    | MissingField    // 400: tvdb_id and title are required
    | EmptyParseTerm  // 400: title normalizes to an empty string
    | Duplicate       // 409: this alias already exists for this series
    | NotFound        // 404: alias not found
    | NotManual       // 403: only manual aliases can be removed

  predicate IsManual(r: Row) {
    r.Type == ManualType
  }

  /** A manual row for series `tvdbId` under the key `parseTerm`. */
  predicate IsManualFor(r: Row, tvdbId: int, parseTerm: string) {
    r.ParseTerm == parseTerm && r.TvdbId == tvdbId && IsManual(r)
  }

  predicate HasManualFor(rows: seq<Row>, tvdbId: int, parseTerm: string) {
    exists k :: 0 <= k < |rows| && IsManualFor(rows[k], tvdbId, parseTerm)
  }

  predicate HasId(rows: seq<Row>, id: int) {
    exists k :: 0 <= k < |rows| && rows[k].Id == id
  }

  /** `Id` is the table's primary key. */
  predicate IdsDistinct(rows: seq<Row>) {
    forall i, j :: 0 <= i < j < |rows| ==> rows[i].Id != rows[j].Id
  }

  predicate IdsBelow(rows: seq<Row>, bound: int) {
    forall k :: 0 <= k < |rows| ==> rows[k].Id < bound
  }

  /** At most one manual row per (`TvdbId`, `ParseTerm`): the rule `add_alias` enforces. */
  predicate ManualKeysUnique(rows: seq<Row>) {
    forall i, j :: 0 <= i < j < |rows| && IsManual(rows[i]) && IsManual(rows[j]) ==>
      rows[i].TvdbId != rows[j].TvdbId || rows[i].ParseTerm != rows[j].ParseTerm
  }

  // ---------------------------------------------------------------------------
  // The SQL statements of the handlers, as queries over the rows.

  /**
    `SELECT "Id" FROM "SceneMappings" WHERE "ParseTerm" = ? AND "TvdbId" = ?
    AND "Type" = ?` with `fetchone()`: the position of the first such row.
  */
  function FindManual(rows: seq<Row>, tvdbId: int, parseTerm: string): (r: Option<nat>)
    ensures r.Some? ==> r.value < |rows| && IsManualFor(rows[r.value], tvdbId, parseTerm)
    ensures r.None? <==> !HasManualFor(rows, tvdbId, parseTerm)
  {
    if rows == [] then None
    else if IsManualFor(rows[0], tvdbId, parseTerm) then Some(0)
    else match FindManual(rows[1..], tvdbId, parseTerm)
      case Some(k) => Some(k + 1)
      case None =>
        assert forall k :: 1 <= k < |rows| ==> rows[k] == rows[1..][k - 1];
        None
  }

  /** `SELECT ... FROM "SceneMappings" WHERE "Id" = ?` with `fetchone()`. */
  function FindById(rows: seq<Row>, id: int): (r: Option<nat>)
    ensures r.Some? ==> r.value < |rows| && rows[r.value].Id == id
    ensures r.None? <==> !HasId(rows, id)
  {
    if rows == [] then None
    else if rows[0].Id == id then Some(0)
    else match FindById(rows[1..], id)
      case Some(k) => Some(k + 1)
      case None =>
        assert forall k :: 1 <= k < |rows| ==> rows[k] == rows[1..][k - 1];
        None
  }

  /** `DELETE FROM "SceneMappings" WHERE "Id" = ?`: every other row, in order. */
  function DeleteId(rows: seq<Row>, id: int): (r: seq<Row>)
    ensures forall x :: x in r <==> x in rows && x.Id != id
    ensures |r| <= |rows|
  {
    if rows == [] then []
    else if rows[0].Id == id then DeleteId(rows[1..], id)
    else [rows[0]] + DeleteId(rows[1..], id)
  }

  /** `SELECT ... FROM "SceneMappings" WHERE "TvdbId" = ?`, before ordering. */
  function RowsFor(rows: seq<Row>, tvdbId: int): (r: seq<Row>)
    ensures forall x :: x in r <==> x in rows && x.TvdbId == tvdbId
    ensures forall x :: multiset(r)[x] == if x.TvdbId == tvdbId then multiset(rows)[x] else 0
  {
    if rows == [] then []
    else
      assert rows == [rows[0]] + rows[1..];
      if rows[0].TvdbId == tvdbId then [rows[0]] + RowsFor(rows[1..], tvdbId)
      else RowsFor(rows[1..], tvdbId)
  }

  /** The largest id in use, or 0 for an empty table. */
  function MaxId(rows: seq<Row>): (m: int)
    ensures IdsBelow(rows, m + 1)
    ensures rows != [] ==> HasId(rows, m)
    ensures rows == [] ==> m == 0
  {
    if rows == [] then 0
    else if |rows| == 1 || rows[0].Id >= MaxId(rows[1..]) then rows[0].Id
    else
      var m := MaxId(rows[1..]);
      assert forall k :: 1 <= k < |rows| ==> rows[k] == rows[1..][k - 1];
      assert rows[1..][0] == rows[1];
      m
  }

  // ---------------------------------------------------------------------------
  // `ORDER BY "Type", "Id"`.

  /** `a` may come before `b`: smaller `Type` first, then smaller `Id`. */
  predicate RowLe(a: Row, b: Row) {
    if a.Type == b.Type then a.Id <= b.Id else TextLe(a.Type, b.Type)
  }

  lemma RowLeTotal(a: Row, b: Row)
    ensures RowLe(a, b) || RowLe(b, a)
  {
    TextLeTotal(a.Type, b.Type);
  }

  lemma RowLeTransitive(a: Row, b: Row, c: Row)
    requires RowLe(a, b) && RowLe(b, c)
    ensures RowLe(a, c)
  {
    if a.Type != b.Type && b.Type != c.Type {
      TextLeTransitive(a.Type, b.Type, c.Type);
      if a.Type == c.Type {
        TextLeAntisymmetric(a.Type, b.Type);
      }
    }
  }

  predicate SortedByTypeId(s: seq<Row>) {
    forall i, j :: 0 <= i < j < |s| ==> RowLe(s[i], s[j])
  }

  /** Insert `x` before the first row it may precede. */
  function InsertOrdered(x: Row, s: seq<Row>): (r: seq<Row>)
    ensures multiset(r) == multiset(s) + multiset{x}
  {
    if s == [] then [x]
    else if RowLe(x, s[0]) then [x] + s
    else
      assert s == [s[0]] + s[1..];
      [s[0]] + InsertOrdered(x, s[1..])
  }

  /** `y` may precede every row of `s`. */
  predicate Precedes(y: Row, s: seq<Row>) {
    forall j :: 0 <= j < |s| ==> RowLe(y, s[j])
  }

  lemma ConsSorted(y: Row, s: seq<Row>)
    requires Precedes(y, s) && SortedByTypeId(s)
    ensures SortedByTypeId([y] + s)
  {
    var r := [y] + s;
    assert forall i, j :: 0 < i < j < |r| ==> r[i] == s[i - 1] && r[j] == s[j - 1];
  }

  lemma PrecedesAll(y: Row, s: seq<Row>, t: seq<Row>)
    requires forall z :: z in multiset(t) ==> z in multiset(s) || RowLe(y, z)
    requires Precedes(y, s)
    ensures Precedes(y, t)
  {
    forall j | 0 <= j < |t| ensures RowLe(y, t[j]) {
      assert t[j] in multiset(t);
      if t[j] in multiset(s) {
        var m :| 0 <= m < |s| && s[m] == t[j];
      }
    }
  }

  /** Inserting into an ordered sequence keeps it ordered. */
  lemma {:induction false} InsertSorted(x: Row, s: seq<Row>)
    requires SortedByTypeId(s)
    ensures SortedByTypeId(InsertOrdered(x, s))
  {
    if s == [] {
    } else if RowLe(x, s[0]) {
      forall j | 0 <= j < |s| ensures RowLe(x, s[j]) {
        if j > 0 { RowLeTransitive(x, s[0], s[j]); }
      }
      ConsSorted(x, s);
    } else {
      var t := s[1..];
      assert SortedByTypeId(t) by {
        assert forall i, j :: 0 <= i < j < |t| ==> t[i] == s[i + 1] && t[j] == s[j + 1];
      }
      InsertSorted(x, t);
      RowLeTotal(x, s[0]);
      assert Precedes(s[0], t);
      PrecedesAll(s[0], t, InsertOrdered(x, t));
      ConsSorted(s[0], InsertOrdered(x, t));
    }
  }

  /** The rows in `ORDER BY "Type", "Id"` order. */
  function SortByTypeId(s: seq<Row>): (r: seq<Row>)
    ensures SortedByTypeId(r)
    ensures multiset(r) == multiset(s)
  {
    if s == [] then []
    else
      assert s == [s[0]] + s[1..];
      InsertSorted(s[0], SortByTypeId(s[1..]));
      InsertOrdered(s[0], SortByTypeId(s[1..]))
  }

  // ---------------------------------------------------------------------------
  // The `search` response (app.py:68-90).

  /** One alias of the response: `season` is hidden when null or negative. */
  function ToAliasView(a: Row): (v: AliasView)
    ensures v.id == a.Id && v.title == a.Title && v.searchTerm == a.SearchTerm
    ensures v.season.None? <==> a.SeasonNumber.None? || a.SeasonNumber.value < 0
    ensures v.season.Some? ==> v.season == a.SeasonNumber
    ensures v.manual <==> IsManual(a)
  {
    AliasView(
      a.Id, a.Title, a.SearchTerm,
      if a.SeasonNumber.Some? && a.SeasonNumber.value >= 0 then a.SeasonNumber else None,
      a.Type == ManualType)
  }

  function ToAliasViews(s: seq<Row>): (r: seq<AliasView>)
    ensures |r| == |s|
    ensures forall k :: 0 <= k < |s| ==> r[k] == ToAliasView(s[k])
  {
    if s == [] then [] else [ToAliasView(s[0])] + ToAliasViews(s[1..])
  }

  /** The aliases of series `tvdbId`: all of its rows, ordered by `Type` then `Id`. */
  function AliasesFor(rows: seq<Row>, tvdbId: int): (r: seq<Row>)
    ensures SortedByTypeId(r)
    ensures forall x :: x in r <==> x in rows && x.TvdbId == tvdbId
    ensures multiset(r) == multiset(RowsFor(rows, tvdbId))
  {
    var r := SortByTypeId(RowsFor(rows, tvdbId));
    assert forall x :: x in r <==> x in multiset(r);
    r
  }

  /** With distinct ids, every row occurs once. */
  lemma {:induction false} DistinctIdsOnce(rows: seq<Row>)
    requires IdsDistinct(rows)
    ensures forall x :: multiset(rows)[x] <= 1
  {
    if rows != [] {
      var rest := rows[1..];
      assert IdsDistinct(rest) by {
        assert forall i, j :: 0 <= i < j < |rest| ==> rest[i] == rows[i + 1] && rest[j] == rows[j + 1];
      }
      DistinctIdsOnce(rest);
      assert rows == [rows[0]] + rest;
      assert rows[0] !in rest by {
        assert forall k :: 0 <= k < |rest| ==> rest[k] == rows[k + 1];
      }
    }
  }

  /** A row at two positions occurs at least twice. */
  lemma RepeatedTwice(r: seq<Row>, i: nat, j: nat)
    requires i < j < |r| && r[i] == r[j]
    ensures multiset(r)[r[i]] >= 2
  {
    assert r == r[..j] + r[j..];
    assert r[i] in r[..j] && r[j] in r[j..];
  }

  /** The aliases of a series, like the table, never repeat an id. */
  lemma AliasesForIdsDistinct(rows: seq<Row>, tvdbId: int)
    requires IdsDistinct(rows)
    ensures IdsDistinct(AliasesFor(rows, tvdbId))
  {
    var a := AliasesFor(rows, tvdbId);
    DistinctIdsOnce(rows);
    forall i, j | 0 <= i < j < |a| ensures a[i].Id != a[j].Id {
      assert a[i] in a && a[j] in a;
      if a[i] == a[j] {
        RepeatedTwice(a, i, j);
        assert false;
      } else {
        var p :| 0 <= p < |rows| && rows[p] == a[i];
        var q :| 0 <= q < |rows| && rows[q] == a[j];
        assert p != q;
      }
    }
  }

  /** The response entry of one matched series. */
  function EntryFor(s: Series, rows: seq<Row>): SeriesEntry {
    SeriesEntry(s.TvdbId, s.Title, s.Year, s.Status, ToAliasViews(AliasesFor(rows, s.TvdbId)))
  }

  /** The response entries of the matched series, in order. */
  function Entries(matched: seq<Series>, rows: seq<Row>): (r: seq<SeriesEntry>)
    ensures |r| == |matched|
    ensures forall i :: 0 <= i < |matched| ==> r[i] == EntryFor(matched[i], rows)
  {
    if matched == [] then []
    else Entries(matched[..|matched| - 1], rows) + [EntryFor(matched[|matched| - 1], rows)]
  }

  // ---------------------------------------------------------------------------
  // What the handlers preserve and how they show in `search`.

  /** The inserted row of `add_alias` (app.py:119-135). */
  function NewManualRow(id: int, title: string, parseTerm: string, searchTerm: string, tvdbId: int, season: Option<int>): (r: Row)
    ensures IsManualFor(r, tvdbId, parseTerm) && r.Id == id
  {
    Row(id, title, parseTerm, searchTerm, tvdbId,
        Some(if season.Some? then season.value else -1), None,
        Some(ManualOrigin), 0, Some(ManualComment), None, ManualType)
  }

  /** Appending a manual row whose key is not taken keeps manual keys unique. */
  lemma AppendKeepsManualKeysUnique(rows: seq<Row>, row: Row)
    requires ManualKeysUnique(rows)
    requires !HasManualFor(rows, row.TvdbId, row.ParseTerm)
    ensures ManualKeysUnique(rows + [row])
  {
    var r := rows + [row];
    forall i, j | 0 <= i < j < |r| && IsManual(r[i]) && IsManual(r[j])
      ensures r[i].TvdbId != r[j].TvdbId || r[i].ParseTerm != r[j].ParseTerm
    {
      if j == |rows| {
        assert !IsManualFor(rows[i], row.TvdbId, row.ParseTerm);
      }
    }
  }

  /** Appending a row under a fresh id keeps ids distinct and below the next id. */
  lemma AppendKeepsIds(rows: seq<Row>, row: Row, bound: int)
    requires IdsDistinct(rows) && IdsBelow(rows, bound) && row.Id == bound
    ensures IdsDistinct(rows + [row]) && IdsBelow(rows + [row], bound + 1)
  {
  }

  /** Removing one row keeps ids distinct and below the bound. */
  lemma SpliceKeepsIds(rows: seq<Row>, k: nat, bound: int)
    requires IdsDistinct(rows) && IdsBelow(rows, bound) && k < |rows|
    ensures IdsDistinct(rows[..k] + rows[k + 1..]) && IdsBelow(rows[..k] + rows[k + 1..], bound)
  {
    var r := rows[..k] + rows[k + 1..];
    assert forall i :: 0 <= i < |r| ==> r[i] == rows[if i < k then i else i + 1];
  }

  /** The tail of a sequence of rows, position by position. */
  lemma TailAt(rows: seq<Row>)
    requires rows != []
    ensures rows == [rows[0]] + rows[1..]
    ensures forall m :: 0 <= m < |rows| - 1 ==> rows[1..][m] == rows[m + 1]
  {
  }

  /** A row whose key no later manual row shares can head a sequence with unique manual keys. */
  lemma ConsKeepsManualKeysUnique(y: Row, rest: seq<Row>)
    requires ManualKeysUnique(rest)
    requires forall j :: 0 <= j < |rest| && IsManual(y) && IsManual(rest[j]) ==>
      y.TvdbId != rest[j].TvdbId || y.ParseTerm != rest[j].ParseTerm
    ensures ManualKeysUnique([y] + rest)
  {
    var r := [y] + rest;
    assert forall i :: 0 < i < |r| ==> r[i] == rest[i - 1];
  }

  /** Deleting rows keeps manual keys unique. */
  lemma {:induction false} DeleteKeepsManualKeysUnique(rows: seq<Row>, id: int)
    requires ManualKeysUnique(rows)
    ensures ManualKeysUnique(DeleteId(rows, id))
  {
    if rows != [] {
      var tail := rows[1..];
      TailAt(rows);
      assert ManualKeysUnique(tail);
      DeleteKeepsManualKeysUnique(tail, id);
      var rest := DeleteId(tail, id);
      if rows[0].Id != id {
        forall j | 0 <= j < |rest| && IsManual(rows[0]) && IsManual(rest[j])
          ensures rows[0].TvdbId != rest[j].TvdbId || rows[0].ParseTerm != rest[j].ParseTerm
        {
          assert rest[j] in tail;
          var m :| 0 <= m < |tail| && tail[m] == rest[j];
          assert rows[m + 1] == rest[j];
        }
        ConsKeepsManualKeysUnique(rows[0], rest);
      }
    }
  }

  /** Splicing position `k` out of the tail and putting the head back splices `k + 1` out of the whole. */
  lemma SpliceTail(rows: seq<Row>, k: nat)
    requires 0 < k < |rows|
    ensures [rows[0]] + (rows[1..][..k - 1] + rows[1..][k..]) == rows[..k] + rows[k + 1..]
  {
    assert rows[..k] == [rows[0]] + rows[1..][..k - 1];
    assert rows[k + 1..] == rows[1..][k..];
  }

  /** With distinct ids, the DELETE removes exactly the one row that has the id. */
  lemma {:induction false} DeleteIdIsSplice(rows: seq<Row>, k: nat)
    requires IdsDistinct(rows) && k < |rows|
    ensures DeleteId(rows, rows[k].Id) == rows[..k] + rows[k + 1..]
  {
    var id := rows[k].Id;
    var tail := rows[1..];
    TailAt(rows);
    if k == 0 {
      forall x | x in tail ensures x.Id != id {
        var m :| 0 <= m < |tail| && tail[m] == x;
        assert rows[m + 1] == x;
      }
      NoIdNoDelete(tail, id);
    } else {
      assert IdsDistinct(tail);
      assert tail[k - 1] == rows[k];
      DeleteIdIsSplice(tail, k - 1);
      assert rows[0].Id != id;
      SpliceTail(rows, k);
    }
  }

  lemma {:induction false} NoIdNoDelete(rows: seq<Row>, id: int)
    requires forall x :: x in rows ==> x.Id != id
    ensures DeleteId(rows, id) == rows
  {
    if rows != [] {
      NoIdNoDelete(rows[1..], id);
    }
  }

  /** An added alias is listed, as a manual alias, under its series. */
  lemma AddedAliasIsListed(rows: seq<Row>, row: Row, s: Series)
    requires s.TvdbId == row.TvdbId
    ensures ToAliasView(row) in EntryFor(s, rows + [row]).aliases
  {
    var a := AliasesFor(rows + [row], s.TvdbId);
    assert row in a;
    var k :| 0 <= k < |a| && a[k] == row;
    assert ToAliasViews(a)[k] == ToAliasView(row);
  }

  /** A removed alias is listed under no series. */
  lemma RemovedAliasIsNotListed(rows: seq<Row>, id: int, s: Series)
    ensures forall v :: v in EntryFor(s, DeleteId(rows, id)).aliases ==> v.id != id
  {
    var a := AliasesFor(DeleteId(rows, id), s.TvdbId);
    forall v | v in ToAliasViews(a) ensures v.id != id {
      var k :| 0 <= k < |a| && ToAliasViews(a)[k] == v;
      assert a[k] in a;
    }
  }

  // ---------------------------------------------------------------------------
  // The table and its handlers.

  /** The fields of the `add_alias` request that are missing or empty (app.py:103). */
  predicate MissingRequired(tvdbId: Option<int>, title: string) {
    tvdbId.None? || tvdbId.value == 0 || Strip(title) == []
  }

  /**
    The `SceneMappings` table with the id the next insert receives (the table's
    `AUTOINCREMENT` counter).
  */
  class AliasTable {
    var rows: seq<Row>
    var nextId: int

    ghost predicate Valid()
      reads this
    {
      IdsDistinct(rows) && IdsBelow(rows, nextId)
    }

    /** A table holding the tracker's existing rows. */
    constructor (existing: seq<Row>)
      requires IdsDistinct(existing)
      ensures Valid()
      ensures rows == existing && nextId == MaxId(existing) + 1
    {
      rows := existing;
      nextId := MaxId(existing) + 1;
    }

    /** `add_alias` (app.py:95-138). */
    method AddAlias(tvdbId: Option<int>, title: string, searchTerm: string, season: Option<int>)
      returns (status: Status)
      requires Valid()
      modifies this
      ensures Valid()
      ensures status == MissingField <==> MissingRequired(tvdbId, title)
      ensures status == EmptyParseTerm <==>
        !MissingRequired(tvdbId, title) && CleanSeriesTitle(Strip(title)) == []
      ensures status == Duplicate <==>
        && !MissingRequired(tvdbId, title) && CleanSeriesTitle(Strip(title)) != []
        && HasManualFor(old(rows), tvdbId.value, CleanSeriesTitle(Strip(title)))
      ensures status == Ok || status == MissingField || status == EmptyParseTerm || status == Duplicate
      ensures status != Ok ==> rows == old(rows) && nextId == old(nextId)
      ensures status == Ok ==>
        var t := Strip(title);
        && rows == old(rows) + [NewManualRow(old(nextId), t, CleanSeriesTitle(t),
                                 if Strip(searchTerm) != [] then Strip(searchTerm) else t,
                                 tvdbId.value, season)]
        && nextId == old(nextId) + 1
      ensures ManualKeysUnique(old(rows)) ==> ManualKeysUnique(rows)
    {
      var t := Strip(title);
      var term := Strip(searchTerm);
      if term == [] {
        term := t;
      }
      if tvdbId.None? || tvdbId.value == 0 || t == [] {
        return MissingField;
      }
      var parseTerm := CleanSeriesTitle(t);
      if parseTerm == [] {
        return EmptyParseTerm;
      }
      var existing := FindManual(rows, tvdbId.value, parseTerm);
      if existing.Some? {
        return Duplicate;
      }
      var row := NewManualRow(nextId, t, parseTerm, term, tvdbId.value, season);
      Insert(row);
      return Ok;
    }

    /** The INSERT of `add_alias` (app.py:119-135): the row is appended under the next id. */
    method Insert(row: Row)
      requires Valid() && row.Id == nextId
      modifies this
      ensures Valid()
      ensures rows == old(rows) + [row] && nextId == old(nextId) + 1
      ensures ManualKeysUnique(old(rows)) && !HasManualFor(old(rows), row.TvdbId, row.ParseTerm) ==>
        ManualKeysUnique(rows)
    {
      AppendKeepsIds(rows, row, nextId);
      if ManualKeysUnique(rows) && !HasManualFor(rows, row.TvdbId, row.ParseTerm) {
        AppendKeepsManualKeysUnique(rows, row);
      }
      rows := rows + [row];
      nextId := nextId + 1;
    }

    /** `remove_alias` (app.py:141-158). */
    method RemoveAlias(id: int) returns (status: Status)
      requires Valid()
      modifies this
      ensures Valid() && nextId == old(nextId)
      ensures status == NotFound <==> !HasId(old(rows), id)
      ensures status == NotManual <==>
        exists k :: 0 <= k < |old(rows)| && old(rows)[k].Id == id && !IsManual(old(rows)[k])
      ensures status == Ok || status == NotFound || status == NotManual
      ensures status != Ok ==> rows == old(rows)
      ensures status == Ok ==>
        exists k :: 0 <= k < |old(rows)| && old(rows)[k].Id == id && IsManual(old(rows)[k])
          && rows == old(rows)[..k] + old(rows)[k + 1..]
      ensures ManualKeysUnique(old(rows)) ==> ManualKeysUnique(rows)
    {
      var found := FindById(rows, id);
      if found.None? {
        return NotFound;
      }
      var k := found.value;
      assert forall m :: 0 <= m < |rows| && rows[m].Id == id ==> m == k;
      if rows[k].Type != ManualType {
        assert rows[k].Id == id && !IsManual(rows[k]);
        return NotManual;
      }
      ghost var before := rows;
      Delete(id, k);
      assert before[k].Id == id && IsManual(before[k]) && rows == before[..k] + before[k + 1..];
      return Ok;
    }

    /**
      The DELETE of `remove_alias` (app.py:155), for an id the table holds at
      position `k`: exactly that row goes.
    */
    method Delete(id: int, k: nat)
      requires Valid() && k < |rows| && rows[k].Id == id
      modifies this
      ensures Valid() && nextId == old(nextId)
      ensures rows == DeleteId(old(rows), id) == old(rows)[..k] + old(rows)[k + 1..]
      ensures ManualKeysUnique(old(rows)) ==> ManualKeysUnique(rows)
    {
      DeleteIdIsSplice(rows, k);
      SpliceKeepsIds(rows, k, nextId);
      if ManualKeysUnique(rows) {
        DeleteKeepsManualKeysUnique(rows, id);
      }
      rows := DeleteId(rows, id);
    }

    /**
      `search` (app.py:53-92).  `matched` stands for the rows the series query
      returned for the stripped query.
    */
    method Search(q: string, matched: seq<Series>) returns (results: seq<SeriesEntry>)
      ensures Strip(q) == [] ==> results == []
      ensures Strip(q) != [] ==> results == Entries(matched, rows)
    {
      results := [];
      var term := Strip(q);
      if term == [] {
        return;
      }
      var k := 0;
      while k < |matched|
        invariant 0 <= k <= |matched|
        invariant results == Entries(matched[..k], rows)
      {
        var s := matched[k];
        var aliases := AliasesFor(rows, s.TvdbId);
        assert matched[..k + 1][..k] == matched[..k];
        results := results + [SeriesEntry(s.TvdbId, s.Title, s.Year, s.Status, ToAliasViews(aliases))];
        k := k + 1;
      }
      assert matched[..k] == matched;
    }
  }
}
