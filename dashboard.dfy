/** The top-level data flow of main.py from the events of the chosen match
    to the statistics table, and a worked example. */
module Dashboard {
  import opened Wrappers
  import opened Collections
  import opened Text
  import opened Passes
  import opened Stats

  /** Events of the match to the sorted statistics table of the team: pass
      filter, coordinate split, team filter, aggregation, sort. */
  function PassingTable(events: seq<Event>, team: String): seq<PlayerRow>
    requires forall e :: e in events && IsPass(e) ==> WellFormedPass(e)
  {
    PassTable(TeamPasses(NormalisePasses(events), team))
  }

  /** End to end: each row of the table counts the player's passes among the
      team's passes of the match (total, null outcome, non-null outcome, which
      add up); the players are exactly the team's passers, once each; the
      rows are non-increasing by completion percentage. */
  lemma PassingTableSpec(events: seq<Event>, team: String)
    requires forall e :: e in events && IsPass(e) ==> WellFormedPass(e)
    ensures var table := PassingTable(events, team);
      && OrderedByPct(table)
      && NoDuplicates(RowPlayers(table))
      && (forall p :: p in RowPlayers(table) <==> p in Players(SelectedPasses(events, team)))
      && forall t :: t in table ==>
           RowCounts(SelectedPasses(events, team), t) && t.completed + t.incomplete == t.total >= 1
  {
    TeamPassesOfMatch(events, team);
    PassTableSpec(SelectedPasses(events, team));
  }

  /** A worked example: three passes by "A", two with a null
      outcome and one "Incomplete", give the single row total 3,
      completed 2, incomplete 1, at 200/3 percent. */
  lemma ThreePassExample()
    ensures var rows := [
        PassRow("T", "A", None, 1.0, 1.0, 2.0, 2.0),
        PassRow("T", "A", None, 3.0, 3.0, 4.0, 4.0),
        PassRow("T", "A", Some("Incomplete"), 5.0, 5.0, 6.0, 6.0)];
      && PlayerTable(rows) == [PlayerRow("A", 3, 2, 1)]
      && Percentage(PlayerRow("A", 3, 2, 1)) == 200.0 / 3.0
  {
    ThreePassTable(
      PassRow("T", "A", None, 1.0, 1.0, 2.0, 2.0),
      PassRow("T", "A", None, 3.0, 3.0, 4.0, 4.0),
      PassRow("T", "A", Some("Incomplete"), 5.0, 5.0, 6.0, 6.0));
  }

  lemma ThreePassTable(a: PassRow, b: PassRow, c: PassRow)
    requires a.player == b.player == c.player == "A"
    requires a.outcome.None? && b.outcome.None? && c.outcome.Some?
    ensures PlayerTable([a, b, c]) == [PlayerRow("A", 3, 2, 1)]
  {
    var rows := [a, b, c];
    ExampleColumns(a, b, c);
    SinglePasser(rows, "A");
    var table := PlayerTable(rows);
    assert RowCounts(rows, table[0]);
  }

  /** A table of passes all by one player has exactly one row, for that
      player. */
  lemma SinglePasser(rows: seq<PassRow>, p: String)
    requires rows != [] && forall r :: r in rows ==> r.player == p
    ensures RowPlayers(PlayerTable(rows)) == [p]
  {
    var ps := RowPlayers(PlayerTable(rows));
    assert rows[0] in rows;
    assert Players(rows)[0] == p;
    forall i | 0 <= i < |ps| ensures ps[i] == p {
      assert ps[i] in ps;
      var k :| 0 <= k < |rows| && Players(rows)[k] == ps[i];
      assert rows[k] in rows;
    }
    assert p in ps;
    NoDuplicatesCount(ps, p);
    ConstantCount(ps, p);
  }

  lemma ExampleColumns(a: PassRow, b: PassRow, c: PassRow)
    requires a.player == b.player == c.player == "A"
    requires a.outcome.None? && b.outcome.None? && c.outcome.Some?
    ensures Players([a, b, c]) == ["A", "A", "A"]
    ensures PlayerPasses([a, b, c], "A") == [a, b, c]
    ensures Filter([a, b, c], IsCompleted) == [a, b]
    ensures Filter([a, b, c], IsIncomplete) == [c]
  {
    var rows := [a, b, c];
    assert rows == [a] + [b] + [c];
    var byA := (r: PassRow) => r.player == "A";
    FilterConcat([a] + [b], [c], byA);
    FilterConcat([a], [b], byA);
    FilterConcat([a] + [b], [c], IsCompleted);
    FilterConcat([a], [b], IsCompleted);
    FilterConcat([a] + [b], [c], IsIncomplete);
    FilterConcat([a], [b], IsIncomplete);
  }
}
