# Brasileirão Wikipedia extractor — a Dafny model

This project models the extraction core of `ExtractWikiData`
(`mnt/src/python/extract.py`). The class scrapes Portuguese Wikipedia for the
Brazilian championship. It has three operations:

- `brasileirao_teams` reads the index page's `table.wikitable.sortable`. It
  returns one record per team row (header text mapped to cell text) and a
  parallel list of links to the teams' own pages.
- `brasileirao_team_players` reads a team page. It finds the first
  `toccolours` table whose text holds both "N.º" and "Pos.", skips its first
  two rows, and cuts every later row's `td` cells into triples: shirt number,
  position and name. Each player is tagged with the team name from the
  page's infobox.
- `collect_full_players_data` runs the team extractor on every link in
  order. It concatenates what succeeds and logs and skips what raises.

The browser is a parameter `web: string -> Result<Page, Error>` (module
`Html`). A rendered page is abstracted as its tables in document order:

- a table has its class tokens and its rows;
- a row has its cells;
- a cell is a `th` or `td` with class tokens, text fragments and its first
  anchor, whose `href` is optional.

`get_text` is modelled in module `Text`. Each fragment is stripped, empty
fragments are dropped, and the rest are joined with the separator.

Modules:

- `Wrappers`: `Option` and `Result`.
- `Text`: strip, join, `get_text`, `replace` and substring tests.
- `Html`: the page datatypes, the fetch parameter and first-match selection.
- `Teams`: `brasileirao_teams`.
- `Roster`: `brasileirao_team_players`.
- `Aggregate`: `collect_full_players_data`.

The source's loops are methods with loop invariants. Each method is proved
equal to a specification function (`TeamsOf`, `TeamPlayersOf`,
`Gather(Outcomes(..))`), and lemmas state the promised properties of those
functions.

## Model

| member | source | states |
|---|---|---|
| Teams.BrasileiraoTeams | mnt/src/python/extract.py:26-83 | A load failure is re-raised unchanged. Otherwise the result is `TeamsOf(page)`: `TableNotFound` without a `wikitable sortable` table, `NoHeaderRow` for a table without rows, else the zipped records and links of the rows after the first that have a `td`, in row order. |
| Teams.ReadRow | mnt/src/python/extract.py:70-79 | The row holds the normalised text of every `td` in order. Exactly one link is appended, and it comes from the first cell. |
| Teams.Headers | mnt/src/python/extract.py:62 | One column per `th` of the header row, in order, and every column text is stripped: it neither starts nor ends with whitespace. |
| Teams.DataRowsMembers | mnt/src/python/extract.py:67-69 | A row is kept if and only if it comes after the header row and has at least one `td`. |
| Teams.DataRowsAppend | mnt/src/python/extract.py:67-80 | Keeping rows commutes with concatenation, so records follow row order. |
| Teams.TeamsAligned | mnt/src/python/extract.py:67-83 | Records and links both have one entry per kept row. Entry k is `dict(zip(columns, texts of row k))` and the link of row k's first `td`. |
| Teams.TeamRecordShape | mnt/src/python/extract.py:62-83 | A record has at most as many entries as there are headers and as there are cells. Every key is a header text. No value contains U+00A0. |
| Teams.ZipDictShape | mnt/src/python/extract.py:83 | `dict(zip(keys, vals))` has at most min(#keys, #vals) entries. Its keys are exactly the paired keys, and its values are paired values. |
| Teams.ZipDictLastWins | mnt/src/python/extract.py:83 | With a repeated header, the value comes from the last position holding that header. |
| Teams.LinkResolution | mnt/src/python/extract.py:73-77 | A link is present if and only if the first cell has an anchor with a present, non-empty `href`. It is then `"https://pt.wikipedia.org" + href`. |
| Teams.IndexTableSelection | mnt/src/python/extract.py:56-59 | The extraction fails with `TableNotFound` if and only if no table has both classes. Otherwise the first such table is used. |
| Teams.CellTextIdempotent | mnt/src/python/extract.py:74-79 | Cell normalisation is a fixed point: a cell holding a normalised text reads back as that text. |
| Html.First | mnt/src/python/extract.py:127-131 | First-match search: the index found satisfies the test and no earlier element does; `None` if and only if no element satisfies it. |
| Roster.FindPlayersTable | mnt/src/python/extract.py:127-131 | The scan stops at the first `toccolours` table whose text contains "N.º" and "Pos.", and reports none if and only if no table qualifies. |
| Roster.BrasileiraoTeamPlayers | mnt/src/python/extract.py:111-152 | The result is `TeamPlayersOf(web, url)`: a load failure is re-raised; otherwise the roster rows after the first two, cut into triples and tagged with the team name. |
| Roster.ReadGroups | mnt/src/python/extract.py:139-150 | Stepping through a row's cells three at a time appends exactly `RowPlayers(columns, team)`. |
| Roster.RowPlayersShape | mnt/src/python/extract.py:137-150 | A row of n `td` cells yields n div 3 players. Player k reads cells 3k, 3k+1 and 3k+2 as shirt number, position and name. |
| Roster.RosterAppend | mnt/src/python/extract.py:136-150 | Players appear row by row: the players of `a + b` are those of `a` followed by those of `b`. |
| Roster.TeamName | mnt/src/python/extract.py:122-124 | A team name, when present, is stripped and comes from a page that has an "infobox vcard vevent" table. |
| Roster.PlayersShareTeamName | mnt/src/python/extract.py:122-149 | Every player of a page carries the page's team name. The name is `None` when the page has no infobox table, and also when the first infobox has no "fn summary" element. |
| Roster.MissingRosterTable | mnt/src/python/extract.py:127-152 | A loaded page without a roster table yields an empty list, not an error. |
| Roster.OnlyLoadFails | mnt/src/python/extract.py:112-117 | The team extraction fails if and only if the page does not load, and then with the load's error. |
| Aggregate.CollectFullPlayersData | mnt/src/python/extract.py:85-109 | The result is the in-order concatenation of the player lists of the links whose extraction succeeded. |
| Aggregate.GatherAppend | mnt/src/python/extract.py:97-101 | The collection of two runs of links is the first run's collection followed by the second's. |
| Aggregate.FailureIsolated | mnt/src/python/extract.py:97-106 | A failing link contributes nothing and does not stop the links after it. |
| Aggregate.GatherMembers | mnt/src/python/extract.py:95-109 | A player is collected if and only if it belongs to the result of some successful extraction. |
| Aggregate.GatherAllFailed | mnt/src/python/extract.py:105-109 | When every extraction fails, the result is empty and nothing is raised. |
| Aggregate.MissingLinkSkipped | mnt/src/python/extract.py:97-106 | A `None` link is an error for that team only. |
| Aggregate.AsWrittenCollectsNothing | mnt/src/python/extract.py:99 | As written, the aggregation returns `[]` for every link list. |
| Aggregate.AsWrittenLosesPlayers | mnt/src/python/extract.py:99 | On a site whose one team page has a one-player roster, the intended aggregation returns that player and the code as written returns nothing. |

## Left out

- Browser I/O: `driver.get`, `page_source` and the browser's timeouts are replaced by the `web` parameter, which returns a page or a `FetchError`.
- The explicit wait at extract.py:50-52 is left out. It uses `WebDriverWait`, `EC` and `By`, none of which is imported, so as written it raises a NameError.
- The `self.url` references at extract.py:43-44 and extract.py:113 name an attribute that `__init__` never sets. The model uses the `url` and `team_url` arguments, as the surrounding code evidently intends.
- HTML parsing and CSS selection internals are abstracted. Tables nested inside tables are flattened into the page's table list. A row's `td` cells do not include cells of a table nested inside the row. `find(class_="fn summary")` is searched among the infobox's cells only.
- Text.IsSpace: `strip` removes exactly seven characters: space, tab, line feed, carriage return, U+000B, U+000C and U+00A0. Python's `str.strip` also removes U+001C to U+001F, U+0085 and the other Unicode whitespace; those are not modelled.
- Teams.ZipDict: a Dafny `map` has no key order, so the insertion order of the Python `dict` is not modelled.
- Exception classes are not modelled as such. The `ValueError` of extract.py:59 is `TableNotFound`; the AttributeError of a table without a `tr` at extract.py:62 is `NoHeaderRow`; `driver.get(None)` on a missing link is `MissingUrl`.
- Logging is left out (extract.py:5, 43, 46, 102, 104, 106, 113, 116).
- The Selenium driver configuration files are not part of this model.

## Findings

| source | as written | input that shows it | evidently intended | confidence | as-written member | corrected member |
|---|---|---|---|---|---|---|
| mnt/src/python/extract.py:99 | calls `self.brasileirao_players`, which the class does not define; the AttributeError is caught at line 105 on every iteration | one link `/wiki/Flamengo` whose page has a `toccolours` roster table with the player 9 / FW / Pedro | call `brasileirao_team_players(team_url)` and collect that player | not executed | Aggregate.AsWrittenLosesPlayers | Aggregate.CollectFullPlayersData |
