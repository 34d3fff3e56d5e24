/** `ExtractWikiData.collect_full_players_data`: run the roster extractor for
    every team link in order, keep what succeeds and carry on past failures. */
module Aggregate {
  import opened Wrappers
  import opened Html
  import opened Roster

  /** The outcome of one team link. A `None` link cannot be loaded: the
      browser raises on it and the handler swallows the error like any other. */
  function LinkOutcome(web: Web, link: Option<string>): Result<seq<Player>, Error> {
    match link
    case None => Failure(MissingUrl)
    case Some(url) => TeamPlayersOf(web, url)
  }

  /** What one outcome adds to the collection: its players on success, nothing on failure. */
  function Contribution(outcome: Result<seq<Player>, Error>): seq<Player> {
    match outcome
    case Success(players) => players
    case Failure(_) => []
  }

  /** The outcome of every link, in link order. */
  function Outcomes(web: Web, links: seq<Option<string>>): (outcomes: seq<Result<seq<Player>, Error>>)
    ensures |outcomes| == |links|
  {
    seq(|links|, k requires 0 <= k < |links| => LinkOutcome(web, links[k]))
  }

  /** The collection built from a run of outcomes, in order. */
  function Gather(outcomes: seq<Result<seq<Player>, Error>>): seq<Player> {
    if outcomes == [] then []
    else Gather(outcomes[..|outcomes| - 1]) + Contribution(outcomes[|outcomes| - 1])
  }

  /** `collect_full_players_data(team_url_list)`: each team's players are
      appended in link order; a team whose extraction raises is logged and
      skipped, and an empty list adds nothing. */
  method CollectFullPlayersData(web: Web, teamUrlList: seq<Option<string>>) returns (players: seq<Player>)
    ensures players == Gather(Outcomes(web, teamUrlList))
  {
    ghost var outcomes := Outcomes(web, teamUrlList);
    players := [];
    var i := 0;
    while i < |teamUrlList|
      invariant 0 <= i <= |teamUrlList|
      invariant players == Gather(outcomes[..i])
    {
      assert outcomes[..i + 1][..i] == outcomes[..i];
      var outcome: Result<seq<Player>, Error>;
      match teamUrlList[i] {
        case None =>
          outcome := Failure(MissingUrl);
        case Some(teamUrl) =>
          outcome := BrasileiraoTeamPlayers(web, teamUrl);
      }
      assert outcome == outcomes[i];
      if outcome.Success? {
        var playersTeam := outcome.value;
        if playersTeam != [] {
          players := players + playersTeam;
        }
      }
      i := i + 1;
    }
    assert outcomes[..i] == outcomes;
  }

  /** Gathering two runs of outcomes one after the other collects the players
      of the first run followed by those of the second. */
  lemma {:induction false} GatherAppend(a: seq<Result<seq<Player>, Error>>, b: seq<Result<seq<Player>, Error>>)
    ensures Gather(a + b) == Gather(a) + Gather(b)
  {
    if b == [] {
      assert a + b == a;
    } else {
      var init, last := b[..|b| - 1], b[|b| - 1];
      assert Gather(a + b) == Gather(a + init) + Contribution(last) by {
        assert (a + b)[..|a + b| - 1] == a + init;
        assert (a + b)[|a + b| - 1] == last;
      }
      GatherAppend(a, init);
    }
  }

  /** Failure isolation: a team whose extraction fails contributes nothing
      and does not stop the teams after it. */
  lemma FailureIsolated(outcomes: seq<Result<seq<Player>, Error>>, i: nat)
    requires i < |outcomes| && outcomes[i].Failure?
    ensures Gather(outcomes) == Gather(outcomes[..i]) + Gather(outcomes[i + 1..])
  {
    var before, failed, after := outcomes[..i], outcomes[i], outcomes[i + 1..];
    assert outcomes == (before + [failed]) + after;
    assert Gather(before + [failed]) == Gather(before) by {
      assert (before + [failed])[..|before|] == before;
    }
    GatherAppend(before + [failed], after);
  }

  /** When every extraction fails, nothing is collected and nothing is raised. */
  lemma {:induction false} GatherAllFailed(outcomes: seq<Result<seq<Player>, Error>>)
    requires forall k :: 0 <= k < |outcomes| ==> outcomes[k].Failure?
    ensures Gather(outcomes) == []
  {
    if outcomes != [] {
      GatherAllFailed(outcomes[..|outcomes| - 1]);
    }
  }

  /** A player is collected exactly when it is among the players of some
      team whose extraction succeeded. */
  lemma {:induction false} GatherMembers(outcomes: seq<Result<seq<Player>, Error>>, p: Player)
    ensures p in Gather(outcomes) <==>
      exists i :: 0 <= i < |outcomes| && outcomes[i].Success? && p in outcomes[i].value
  {
    if outcomes != [] {
      var init := outcomes[..|outcomes| - 1];
      GatherMembers(init, p);
      if exists i :: 0 <= i < |outcomes| && outcomes[i].Success? && p in outcomes[i].value {
        var i :| 0 <= i < |outcomes| && outcomes[i].Success? && p in outcomes[i].value;
        if i < |outcomes| - 1 {
          assert init[i] == outcomes[i];
        }
      }
    }
  }

  /** A `None` link never reaches the browser and contributes nothing. */
  lemma MissingLinkSkipped(web: Web, links: seq<Option<string>>, i: nat)
    requires i < |links| && links[i].None?
    ensures Outcomes(web, links)[i] == Failure(MissingUrl)
  {
  }

  /** The aggregation as written: extract.py:99 calls `brasileirao_players`,
      a name the class does not define, so every iteration raises an
      AttributeError that the handler swallows. */
  function CollectedAsWritten(links: seq<Option<string>>): seq<Player> {
    Gather(seq(|links|, k requires 0 <= k < |links| => Failure(MissingAttribute("brasileirao_players"))))
  }

  /** As written, the aggregation returns an empty list whatever the links. */
  lemma AsWrittenCollectsNothing(links: seq<Option<string>>)
    ensures CollectedAsWritten(links) == []
  {
    GatherAllFailed(seq(|links|, k requires 0 <= k < |links| => Failure(MissingAttribute("brasileirao_players"))));
  }

  /** A team page with a one-player roster table. */
  function OnePlayerPage(): Page {
    Page([Table(["toccolours"], [
      Row([Cell(Th, [], ["N.\U{BA}"], None), Cell(Th, [], ["Pos."], None), Cell(Th, [], ["Nome"], None)]),
      Row([]),
      Row([Cell(Td, [], ["9"], None), Cell(Td, [], ["FW"], None), Cell(Td, [], ["Pedro"], None)])
    ])])
  }

  /** The text of the one-player page's table starts with its header row. */
  lemma OnePlayerTableText()
    ensures "N.\U{BA}Pos.Nome" <= TableText(OnePlayerPage().tables[0])
  {
    var t := OnePlayerPage().tables[0];
    var header := t.rows[0].cells;
    var rest := AllCells(t.rows[1..]);
    assert AllCells(t.rows) == header + rest;
    FragmentsAppend(header, rest);
    assert Fragments(header) == ["N.\U{BA}", "Pos.", "Nome"];
    Text.ConcatAppend(Fragments(header), Fragments(rest));
    assert Text.Concat(["N.\U{BA}", "Pos.", "Nome"]) == "N.\U{BA}Pos.Nome";
  }

  /** The table of the one-player page is a roster table. */
  lemma OnePlayerTableIsRoster()
    ensures IsRosterTable(OnePlayerPage().tables[0])
  {
    var text := TableText(OnePlayerPage().tables[0]);
    OnePlayerTableText();
    assert text[..7] == "N.\U{BA}Pos.";
    assert Text.OccursAt(text, ShirtMarker, 0);
    assert Text.OccursAt(text, PositionMarker, 3);
  }

  /** The one data row of the one-player page reads as one player. */
  lemma OnePlayerRows()
    ensures RosterPlayers(PlayerRows(OnePlayerPage().tables[0]), None) == [Player("9", "FW", "Pedro", None)]
  {
    var t := OnePlayerPage().tables[0];
    var row := t.rows[2];
    assert PlayerRows(t) == [row];
    assert Tds(row) == row.cells;
    Text.StripTrimmed("9");
    Text.StripTrimmed("FW");
    Text.StripTrimmed("Pedro");
    assert RowPlayers(row.cells, None) == [GroupPlayer(row.cells, 0, None)];
    assert [row][..0] == [];
  }

  /** The roster table of the one-player page is found and read. */
  lemma OnePlayerPageRoster()
    ensures PlayersOf(OnePlayerPage()) == [Player("9", "FW", "Pedro", None)]
  {
    var page := OnePlayerPage();
    OnePlayerTableIsRoster();
    OnePlayerRows();
    assert First(page.tables, IsRosterTable) == Some(0);
    assert TeamName(page) == None;
  }

  /** On a site where the one linked team page has a roster, the intended
      aggregation collects that player while the code as written collects none. */
  lemma AsWrittenLosesPlayers()
    ensures var web: Web := _ => Success(OnePlayerPage());
      && Gather(Outcomes(web, [Some("/wiki/Flamengo")])) == [Player("9", "FW", "Pedro", None)]
      && CollectedAsWritten([Some("/wiki/Flamengo")]) == []
  {
    var web: Web := _ => Success(OnePlayerPage());
    var outcomes := Outcomes(web, [Some("/wiki/Flamengo")]);
    OnePlayerPageRoster();
    assert outcomes[0] == Success([Player("9", "FW", "Pedro", None)]);
    assert outcomes[..0] == [];
    AsWrittenCollectsNothing([Some("/wiki/Flamengo")]);
  }
}
