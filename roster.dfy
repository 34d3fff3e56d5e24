/** `ExtractWikiData.brasileirao_team_players`: a team page's roster table
    becomes one player per complete group of three `td` cells. */
module Roster {
  import opened Wrappers
  import opened Text
  import opened Html

  /** `soup.find("table", class_="infobox vcard vevent")` matches this exact class attribute. */
  const InfoboxClasses: seq<string> := ["infobox", "vcard", "vevent"]
  /** `find(class_="fn summary")` matches this exact class attribute. */
  const TitleClasses: seq<string> := ["fn", "summary"]
  /** The class token shared by the candidate roster tables. */
  const RosterClass: string := "toccolours"
  /** The shirt-number heading "N.º". */
  const ShirtMarker: string := "N.\U{BA}"
  /** The position heading. */
  const PositionMarker: string := "Pos."

  /** One player dictionary: shirt number, position, name and the page's team name. */
  datatype Player = Player(tshirtNumber: string, position: string, playerName: string, teamName: Option<string>)

  predicate IsInfobox(t: Table) {
    t.classes == InfoboxClasses
  }

  predicate IsTitle(c: Cell) {
    c.classes == TitleClasses
  }

  /** The team name: the stripped text of the first "fn summary" element
      inside the first "infobox vcard vevent" table, or `None` when either is missing. */
  function TeamName(page: Page): (name: Option<string>)
    ensures name.Some? ==> Trimmed(name.value)
    ensures name.Some? ==> exists t :: t in page.tables && IsInfobox(t)
  {
    match First(page.tables, IsInfobox)
    case None => None
    case Some(i) =>
      var cells := AllCells(page.tables[i].rows);
      match First(cells, IsTitle)
      case None => None
      case Some(j) => Some(Strip(Concat(cells[j].fragments)))
  }

  /** A "toccolours" table whose text holds both the shirt and the position marker. */
  predicate IsRosterTable(t: Table) {
    RosterClass in t.classes && Contains(TableText(t), ShirtMarker) && Contains(TableText(t), PositionMarker)
  }

  /** `players_table`: scan the tables in page order and stop at the first roster table. */
  method FindPlayersTable(tables: seq<Table>) returns (found: Option<nat>)
    ensures found.Some? ==> found.value < |tables| && IsRosterTable(tables[found.value])
    ensures found.Some? ==> forall j :: 0 <= j < found.value ==> !IsRosterTable(tables[j])
    ensures found.None? <==> forall j :: 0 <= j < |tables| ==> !IsRosterTable(tables[j])
    ensures found == First(tables, IsRosterTable)
  {
    found := None;
    var i := 0;
    while i < |tables|
      invariant 0 <= i <= |tables|
      invariant forall j :: 0 <= j < i ==> !IsRosterTable(tables[j])
    {
      var table := tables[i];
      if RosterClass in table.classes {
        if Contains(TableText(table), ShirtMarker) && Contains(TableText(table), PositionMarker) {
          found := Some(i);
          break;
        }
      }
      i := i + 1;
    }
  }

  /** `columns[i].get_text(strip=True)`. */
  function PlainText(c: Cell): string {
    GetText(c.fragments, "")
  }

  /** The player read from cells `3 * k`, `3 * k + 1` and `3 * k + 2`. */
  function GroupPlayer(cells: seq<Cell>, k: nat, team: Option<string>): Player
    requires 3 * k + 2 < |cells|
  {
    Player(PlainText(cells[3 * k]), PlainText(cells[3 * k + 1]), PlainText(cells[3 * k + 2]), team)
  }

  /** The players of one row: one per complete group of three cells, left to right. */
  function RowPlayers(cells: seq<Cell>, team: Option<string>): seq<Player> {
    seq(|cells| / 3, k requires 0 <= k < |cells| / 3 => GroupPlayer(cells, k, team))
  }

  lemma RowPlayersStep(cells: seq<Cell>, team: Option<string>, m: nat)
    requires m < |cells| / 3
    ensures RowPlayers(cells, team)[..m + 1] == RowPlayers(cells, team)[..m] + [GroupPlayer(cells, m, team)]
  {
  }

  /** A row with `n` cells yields `n / 3` players (a trailing group of one or
      two cells is dropped), and player `k` reads its shirt number, position
      and name from cells `3 * k`, `3 * k + 1` and `3 * k + 2`. */
  lemma RowPlayersShape(cells: seq<Cell>, team: Option<string>)
    ensures |RowPlayers(cells, team)| == |cells| / 3
    ensures forall k :: 0 <= k < |cells| / 3 ==>
      RowPlayers(cells, team)[k] == Player(PlainText(cells[3 * k]), PlainText(cells[3 * k + 1]), PlainText(cells[3 * k + 2]), team)
  {
  }

  /** The players of a run of rows, row after row. */
  function RosterPlayers(rows: seq<Row>, team: Option<string>): seq<Player> {
    if rows == [] then []
    else RosterPlayers(rows[..|rows| - 1], team) + RowPlayers(Tds(rows[|rows| - 1]), team)
  }

  /** `find_all("tr")[2:]`: every row after the first two. */
  function PlayerRows(t: Table): seq<Row> {
    if |t.rows| <= 2 then [] else t.rows[2..]
  }

  /** What `brasileirao_team_players` computes from a loaded page. */
  function PlayersOf(page: Page): seq<Player> {
    match First(page.tables, IsRosterTable)
    case None => []
    case Some(i) => RosterPlayers(PlayerRows(page.tables[i]), TeamName(page))
  }

  /** The outcome of `brasileirao_team_players(url)`: a load failure is
      re-raised, otherwise the page's players. */
  function TeamPlayersOf(web: Web, url: string): Result<seq<Player>, Error> {
    match web(url)
    case Failure(e) => Failure(e)
    case Success(page) => Success(PlayersOf(page))
  }

  /** Rows contribute in order: the players of `a + b` are those of `a`
      followed by those of `b`, so players appear row by row, group by group. */
  lemma {:induction false} RosterAppend(a: seq<Row>, b: seq<Row>, team: Option<string>)
    ensures RosterPlayers(a + b, team) == RosterPlayers(a, team) + RosterPlayers(b, team)
  {
    if b == [] {
      assert a + b == a;
    } else {
      var init, last := b[..|b| - 1], b[|b| - 1];
      assert RosterPlayers(a + b, team) == RosterPlayers(a + init, team) + RowPlayers(Tds(last), team) by {
        assert (a + b)[..|a + b| - 1] == a + init;
        assert (a + b)[|a + b| - 1] == last;
      }
      RosterAppend(a, init, team);
    }
  }

  /** Every player read from a run of rows carries the given team name. */
  lemma {:induction false} RosterTeamName(rows: seq<Row>, team: Option<string>)
    ensures forall p :: p in RosterPlayers(rows, team) ==> p.teamName == team
  {
    if rows != [] {
      RosterTeamName(rows[..|rows| - 1], team);
    }
  }

  /** All players of a page carry the page's team name, which is `None` when
      the page has no "infobox vcard vevent" table. */
  lemma PlayersShareTeamName(page: Page)
    ensures forall p :: p in PlayersOf(page) ==> p.teamName == TeamName(page)
    ensures (forall t :: t in page.tables ==> !IsInfobox(t)) ==> TeamName(page) == None
    ensures var infobox := First(page.tables, IsInfobox);
      infobox.Some? && (forall c :: c in AllCells(page.tables[infobox.value].rows) ==> !IsTitle(c)) ==>
        TeamName(page) == None
  {
    match First(page.tables, IsRosterTable) {
      case None =>
      case Some(i) => RosterTeamName(PlayerRows(page.tables[i]), TeamName(page));
    }
  }

  /** A loaded page without a roster table yields no players and no error. */
  lemma MissingRosterTable(web: Web, url: string)
    requires web(url).Success?
    requires forall t :: t in web(url).value.tables ==> !IsRosterTable(t)
    ensures TeamPlayersOf(web, url) == Success([])
  {
  }

  /** The only way the extraction fails is a page that does not load. */
  lemma OnlyLoadFails(web: Web, url: string)
    ensures TeamPlayersOf(web, url).Failure? <==> web(url).Failure?
    ensures web(url).Failure? ==> TeamPlayersOf(web, url).error == web(url).error
  {
  }

  /** `brasileirao_team_players(team_url)`.

      Defect in the source, modelled by its evident intent: the log call at
      extract.py:113 reads `self.url`, an attribute `__init__` never sets, so
      as written the method raises an AttributeError before loading the page;
      the model loads `team_url` as extract.py:114 does. */
  method BrasileiraoTeamPlayers(web: Web, url: string) returns (res: Result<seq<Player>, Error>)
    ensures res == TeamPlayersOf(web, url)
  {
    var loaded := web(url);
    if loaded.Failure? {
      return Failure(loaded.error);
    }
    var soup := loaded.value;
    var teamName := TeamName(soup);
    var found := FindPlayersTable(soup.tables);
    var playersList: seq<Player> := [];
    if found.Some? {
      var trs := PlayerRows(soup.tables[found.value]);
      var r := 0;
      while r < |trs|
        invariant 0 <= r <= |trs|
        invariant playersList == RosterPlayers(trs[..r], teamName)
      {
        assert trs[..r + 1][..r] == trs[..r];
        playersList := ReadGroups(Tds(trs[r]), teamName, playersList);
        r := r + 1;
      }
      assert trs[..r] == trs;
    }
    return Success(playersList);
  }

  /** One roster row (extract.py:139-150): step through the cells three at a
      time and append a player for each complete group. */
  method ReadGroups(columns: seq<Cell>, team: Option<string>, players: seq<Player>) returns (players': seq<Player>)
    ensures players' == players + RowPlayers(columns, team)
  {
    ghost var groups := RowPlayers(columns, team);
    ghost var q := |columns| / 3;
    assert 3 * q <= |columns| < 3 * q + 3;
    players' := players;
    var i := 0;
    ghost var m := 0;
    while i < |columns|
      invariant i == 3 * m && 0 <= m <= q + 1
      invariant m <= q ==> players' == players + groups[..m]
      invariant m > q ==> players' == players + groups
    {
      if i + 2 < |columns| {
        var tshirtNumber := PlainText(columns[i]);
        var position := PlainText(columns[i + 1]);
        var playerName := PlainText(columns[i + 2]);
        assert m < q && 3 * m == i;
        RowPlayersStep(columns, team, m);
        assert GroupPlayer(columns, m, team) == Player(tshirtNumber, position, playerName, team);
        players' := players' + [Player(tshirtNumber, position, playerName, team)];
      }
      i := i + 3;
      m := m + 1;
    }
    assert groups[..q] == groups;
  }
}
