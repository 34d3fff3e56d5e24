/** `ExtractWikiData.brasileirao_teams`: the index page's team table becomes
    one record per data row (header text to cell text) plus a parallel list
    of links to the teams' own pages. */
module Teams {
  import opened Wrappers
  import opened Text
  import opened Html

  /** The origin prepended to a relative `href`. */
  const SiteOrigin: string := "https://pt.wikipedia.org"

  /** The class tokens of the CSS selector `table.wikitable.sortable`. */
  const IndexClasses: seq<string> := ["wikitable", "sortable"]

  /** A team record: header text to cell text, as `dict(zip(columns, row))`. */
  type TeamRecord = map<string, string>

  /** What the extractor returns: the records and the links, index by index. */
  datatype TeamTable = TeamTable(records: seq<TeamRecord>, links: seq<Option<string>>)

  predicate IsIndexTable(t: Table) {
    HasClasses(t.classes, IndexClasses)
  }

  /** `soup.select_one("table.wikitable.sortable")`. */
  function IndexTable(page: Page): Option<Table> {
    match First(page.tables, IsIndexTable)
    case None => None
    case Some(i) => Some(page.tables[i])
  }

  /** The header texts of the first row: `th.get_text(strip=True)` for each `th`. */
  function Headers(header: Row): (columns: seq<string>)
    ensures |columns| == |Ths(header)|
    ensures forall k :: 0 <= k < |columns| ==> columns[k] == GetText(Ths(header)[k].fragments, "")
    ensures forall k :: 0 <= k < |columns| ==> Trimmed(columns[k])
  {
    var ths := Ths(header);
    var columns := seq(|ths|, k requires 0 <= k < |ths| => GetText(ths[k].fragments, ""));
    assert forall k :: 0 <= k < |columns| ==> Trimmed(columns[k]) by {
      forall k | 0 <= k < |columns| ensures Trimmed(columns[k]) {
        GetTextTrimmed(ths[k].fragments, "");
      }
    }
    columns
  }

  /** A data cell's text: `td.get_text(" ", strip=True).replace("\xa0", "")`. */
  function CellText(c: Cell): string {
    Without(GetText(c.fragments, " "), NBSP)
  }

  /** The link of a row's first `td`: the origin plus the first anchor's
      `href`, or `None` when there is no anchor or its `href` is absent or empty. */
  function Link(c: Cell): Option<string> {
    match c.anchor
    case Some(Anchor(Some(href))) => if href != "" then Some(SiteOrigin + href) else None
    case _ => None
  }

  /** A row that has at least one `td`; the others are skipped. */
  predicate HasTd(row: Row) {
    Tds(row) != []
  }

  /** The rows the extractor keeps, in document order. */
  function DataRows(rows: seq<Row>): (kept: seq<Row>)
    ensures forall k :: 0 <= k < |kept| ==> HasTd(kept[k])
  {
    if rows == [] then []
    else
      var last := rows[|rows| - 1];
      DataRows(rows[..|rows| - 1]) + (if HasTd(last) then [last] else [])
  }

  /** The texts of one kept row's `td` cells. */
  function RowTexts(tds: seq<Cell>): seq<string> {
    seq(|tds|, k requires 0 <= k < |tds| => CellText(tds[k]))
  }

  lemma RowTextsStep(tds: seq<Cell>, i: nat)
    requires i < |tds|
    ensures RowTexts(tds[..i + 1]) == RowTexts(tds[..i]) + [CellText(tds[i])]
  {
    var a, b := RowTexts(tds[..i + 1]), RowTexts(tds[..i]) + [CellText(tds[i])];
    assert |a| == |b|;
    forall k | 0 <= k < |a| ensures a[k] == b[k] {
      assert tds[..i + 1][k] == tds[k];
    }
  }

  /** Walking one more row extends the kept rows by that row exactly when it has a `td`. */
  lemma DataRowsStep(rows: seq<Row>, i: nat)
    requires i < |rows|
    ensures DataRows(rows[..i + 1]) == DataRows(rows[..i]) + (if HasTd(rows[i]) then [rows[i]] else [])
  {
    assert rows[..i + 1][..i] == rows[..i];
  }

  /** The row texts of the kept rows. */
  function TableTexts(kept: seq<Row>): seq<seq<string>> {
    seq(|kept|, k requires 0 <= k < |kept| => RowTexts(Tds(kept[k])))
  }

  /** The link of each kept row, taken from its first `td`. */
  function TableLinks(kept: seq<Row>): seq<Option<string>> {
    seq(|kept|, k requires 0 <= k < |kept| => RowLink(kept[k]))
  }

  /** The link of a kept row's first `td` (a row without `td` is never kept). */
  function RowLink(row: Row): Option<string> {
    var tds := Tds(row);
    if tds == [] then None else Link(tds[0])
  }

  lemma TableTextsSnoc(kept: seq<Row>, r: Row)
    ensures TableTexts(kept + [r]) == TableTexts(kept) + [RowTexts(Tds(r))]
  {
  }

  lemma TableLinksSnoc(kept: seq<Row>, r: Row)
    ensures TableLinks(kept + [r]) == TableLinks(kept) + [RowLink(r)]
  {
  }

  function Min(a: int, b: int): int {
    if a <= b then a else b
  }

  /** `dict(zip(keys, vals))`: the pairs up to the shorter length, assigned
      left to right. */
  function ZipDict(keys: seq<string>, vals: seq<string>): TeamRecord {
    var n := Min(|keys|, |vals|);
    if n == 0 then map[]
    else ZipDict(keys[..n - 1], vals[..n - 1])[keys[n - 1] := vals[n - 1]]
  }

  /** A zipped record has at most as many entries as the shorter input, its
      keys are exactly the paired header texts and its values are paired cell texts. */
  lemma {:induction false} ZipDictShape(keys: seq<string>, vals: seq<string>)
    ensures var n := Min(|keys|, |vals|);
      && |ZipDict(keys, vals)| <= n
      && (forall key :: key in ZipDict(keys, vals) <==> key in keys[..n])
      && (forall key :: key in ZipDict(keys, vals) ==> ZipDict(keys, vals)[key] in vals[..n])
  {
    var n := Min(|keys|, |vals|);
    if n > 0 {
      ZipDictShape(keys[..n - 1], vals[..n - 1]);
      assert keys[..n - 1][..n - 1] == keys[..n - 1];
      assert vals[..n - 1][..n - 1] == vals[..n - 1];
      assert keys[..n] == keys[..n - 1] + [keys[n - 1]];
      assert vals[..n] == vals[..n - 1] + [vals[n - 1]];
    }
  }

  /** With repeated headers the later column wins: the value under a key is
      the cell paired with that key's last position. */
  lemma {:induction false} ZipDictLastWins(keys: seq<string>, vals: seq<string>, j: nat)
    requires j < Min(|keys|, |vals|)
    requires keys[j] !in keys[j + 1..Min(|keys|, |vals|)]
    ensures keys[j] in ZipDict(keys, vals) && ZipDict(keys, vals)[keys[j]] == vals[j]
  {
    var n := Min(|keys|, |vals|);
    if j < n - 1 {
      assert keys[j + 1..n] == keys[j + 1..n - 1] + [keys[n - 1]];
      assert keys[..n - 1][j + 1..Min(n - 1, n - 1)] == keys[j + 1..n - 1];
      ZipDictLastWins(keys[..n - 1], vals[..n - 1], j);
    }
  }

  /** `[dict(zip(columns, row)) for row in rows]`. */
  function Records(columns: seq<string>, rows: seq<seq<string>>): (records: seq<TeamRecord>)
    ensures |records| == |rows|
  {
    seq(|rows|, k requires 0 <= k < |rows| => ZipDict(columns, rows[k]))
  }

  /** What `brasileirao_teams` computes from a loaded page. */
  function TeamsOf(page: Page): Result<TeamTable, Error> {
    match IndexTable(page)
    case None => Failure(TableNotFound)
    case Some(t) =>
      if t.rows == [] then Failure(NoHeaderRow)
      else
        var kept := DataRows(t.rows[1..]);
        Success(TeamTable(Records(Headers(t.rows[0]), TableTexts(kept)), TableLinks(kept)))
  }

  /** The kept rows are exactly the rows with a `td`. */
  lemma {:induction false} DataRowsMembers(rows: seq<Row>)
    ensures forall r :: r in DataRows(rows) <==> r in rows && HasTd(r)
  {
    if rows != [] {
      var init := rows[..|rows| - 1];
      DataRowsMembers(init);
      assert rows == init + [rows[|rows| - 1]];
    }
  }

  /** Keeping rows commutes with concatenation, so the kept rows stay in
      document order: rows before a given row yield records before its record. */
  lemma {:induction false} DataRowsAppend(a: seq<Row>, b: seq<Row>)
    ensures DataRows(a + b) == DataRows(a) + DataRows(b)
  {
    if b != [] {
      var init := b[..|b| - 1];
      DataRowsAppend(a, init);
      assert (a + b)[..|a + b| - 1] == a + init;
      assert (a + b)[|a + b| - 1] == b[|b| - 1];
    } else {
      assert a + b == a;
    }
  }

  /** A successful extraction pairs every kept row with one record and one
      link at the same index: the record zips the header texts with the row's
      `td` texts and the link comes from the row's first `td`. */
  lemma TeamsAligned(page: Page)
    requires TeamsOf(page).Success?
    ensures var t := IndexTable(page).value;
      var kept := DataRows(t.rows[1..]);
      var tt := TeamsOf(page).value;
      && |tt.records| == |kept| && |tt.links| == |kept|
      && forall k :: 0 <= k < |kept| ==>
           && Tds(kept[k]) != []
           && tt.records[k] == ZipDict(Headers(t.rows[0]), RowTexts(Tds(kept[k])))
           && tt.links[k] == Link(Tds(kept[k])[0])
  {
  }

  /** Every record has at most as many entries as there are headers and as
      there are `td` cells, every key is a header text and no value contains
      a no-break space. */
  lemma TeamRecordShape(page: Page, k: nat)
    requires TeamsOf(page).Success? && k < |TeamsOf(page).value.records|
    ensures var t := IndexTable(page).value;
      var record := TeamsOf(page).value.records[k];
      var columns := Headers(t.rows[0]);
      && |record| <= |columns|
      && |record| <= |Tds(DataRows(t.rows[1..])[k])|
      && (forall key :: key in record ==> key in columns)
      && (forall key :: key in record ==> NBSP !in record[key])
  {
    var t := IndexTable(page).value;
    var kept := DataRows(t.rows[1..]);
    var columns := Headers(t.rows[0]);
    var texts := RowTexts(Tds(kept[k]));
    ZipDictShape(columns, texts);
    var record := ZipDict(columns, texts);
    forall key | key in record ensures NBSP !in record[key] {
      var j :| 0 <= j < Min(|columns|, |texts|) && texts[j] == record[key];
    }
  }

  /** A link is the origin followed by the first anchor's `href` when that
      `href` is present and non-empty, and `None` otherwise. */
  lemma LinkResolution(page: Page, k: nat)
    requires TeamsOf(page).Success? && k < |TeamsOf(page).value.links|
    ensures var first := Tds(DataRows(IndexTable(page).value.rows[1..])[k])[0];
      var link := TeamsOf(page).value.links[k];
      && (link.Some? <==> first.anchor.Some? && first.anchor.value.href.Some? && first.anchor.value.href.value != "")
      && (link.Some? ==> link.value == SiteOrigin + first.anchor.value.href.value)
  {
    TeamsAligned(page);
  }

  /** Without a `table.wikitable.sortable` the extraction fails and yields no
      records; with one, the first such table in the page is used. */
  lemma IndexTableSelection(page: Page)
    ensures TeamsOf(page) == Failure(TableNotFound) <==> forall t :: t in page.tables ==> !IsIndexTable(t)
    ensures IndexTable(page).Some? ==>
      exists i :: 0 <= i < |page.tables| && page.tables[i] == IndexTable(page).value &&
        IsIndexTable(page.tables[i]) && forall j :: 0 <= j < i ==> !IsIndexTable(page.tables[j])
  {
    var found := First(page.tables, IsIndexTable);
    if found.Some? {
      assert page.tables[found.value] in page.tables;
    }
  }

  /** Canonical text is a fixed point: a cell holding only the text another
      cell was reduced to reads back as that same text. */
  lemma {:induction false} CellTextIdempotent(c: Cell)
    ensures CellText(c.(fragments := [CellText(c)])) == CellText(c)
  {
    var parts := StrippedFragments(c.fragments);
    var joined := Join(parts, " ");
    var t := Without(joined, NBSP);
    assert Trimmed(t) by {
      if t != [] {
        assert parts != [];
        StrippedFragmentsTrimmed(c.fragments);
        JoinEnds(parts, " ");
        WithoutEnds(joined, NBSP);
      }
    }
    StripTrimmed(t);
    assert [t][1..] == [];
    assert StrippedFragments([t]) == if t == [] then [] else [t];
    assert GetText([t], " ") == t;
    WithoutAbsent(t, NBSP);
  }

  /** `brasileirao_teams(url)`: load the page, locate the index table, read
      its header row, then walk the later rows collecting cell texts and the
      first cell's link. A load failure is re-raised.

      Defects in the source, modelled by their evident intent:
      extract.py:43-44 log and load `self.url`, an attribute `__init__`
      (extract.py:16-24) never sets, so as written the method raises an
      AttributeError before loading anything; the model loads the `url`
      argument. extract.py:50-52 wait with `WebDriverWait`, `EC` and `By`,
      none of which is imported; the wait is left out, so a missing table is
      reported as `TableNotFound` (the `ValueError` of extract.py:59). */
  method BrasileiraoTeams(web: Web, url: string) returns (res: Result<TeamTable, Error>)
    ensures web(url).Failure? ==> res == Failure(web(url).error)
    ensures web(url).Success? ==> res == TeamsOf(web(url).value)
  {
    var loaded := web(url);
    if loaded.Failure? {
      return Failure(loaded.error);
    }
    var found := IndexTable(loaded.value);
    if found.None? {
      return Failure(TableNotFound);
    }
    var wikiData := found.value;
    if wikiData.rows == [] {
      return Failure(NoHeaderRow);
    }
    var columns := Headers(wikiData.rows[0]);
    var trs := wikiData.rows[1..];
    var rows: seq<seq<string>> := [];
    var links: seq<Option<string>> := [];
    var i := 0;
    while i < |trs|
      invariant 0 <= i <= |trs|
      invariant rows == TableTexts(DataRows(trs[..i]))
      invariant links == TableLinks(DataRows(trs[..i]))
    {
      DataRowsStep(trs, i);
      var teams := Tds(trs[i]);
      if teams != [] {
        var row;
        row, links := ReadRow(teams, links);
        TableTextsSnoc(DataRows(trs[..i]), trs[i]);
        TableLinksSnoc(DataRows(trs[..i]), trs[i]);
        rows := rows + [row];
      }
      i := i + 1;
    }
    assert trs[..i] == trs;
    return Success(TeamTable(Records(columns, rows), links));
  }

  /** One kept row (extract.py:70-79): the texts of its `td` cells in order,
      with the link of the first cell appended to `links` on the way. */
  method ReadRow(teams: seq<Cell>, links: seq<Option<string>>) returns (row: seq<string>, links': seq<Option<string>>)
    requires teams != []
    ensures row == RowTexts(teams)
    ensures links' == links + [Link(teams[0])]
  {
    row, links' := [], links;
    var idx := 0;
    while idx < |teams|
      invariant 0 <= idx <= |teams|
      invariant row == RowTexts(teams[..idx])
      invariant links' == links + (if idx == 0 then [] else [Link(teams[0])])
    {
      if idx == 0 {
        var teamName := CellText(teams[idx]);
        row := row + [teamName];
        links' := links' + [Link(teams[idx])];
      } else {
        row := row + [CellText(teams[idx])];
      }
      RowTextsStep(teams, idx);
      idx := idx + 1;
    }
    assert teams[..idx] == teams;
  }
}
