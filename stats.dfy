/** The passing statistics of main.py: per-player totals, completed and
    incomplete counts with zero-fill, the completion percentage and the
    table sorted by it. The percentage is kept as the pair (completed,
    total) and compared by cross-multiplication. */
module Stats {
  import opened Collections
  import opened Text
  import opened Passes

  /** One row of the statistics table. */
  datatype PlayerRow = PlayerRow(player: String, total: nat, completed: nat, incomplete: nat)

  /** A null `pass_outcome` marks a completed pass. */
  predicate IsCompleted(r: PassRow) {
    r.outcome.None?
  }

  predicate IsIncomplete(r: PassRow) {
    r.outcome.Some?
  }

  /** The `player` column. */
  function Players(rows: seq<PassRow>): seq<String> {
    Map(rows, (r: PassRow) => r.player)
  }

  /** Reference definition: the passes of one player, in order. */
  function PlayerPasses(rows: seq<PassRow>, p: String): seq<PassRow> {
    Filter(rows, (r: PassRow) => r.player == p)
  }

  /** `groupby(['player'])['player'].count()`: a count for every player who
      appears, equal to the number of that player's passes; a player who
      does not appear has no passes. */
  function GroupCount(rows: seq<PassRow>): (m: map<String, nat>)
    ensures forall p :: p in m <==> p in Players(rows)
    ensures forall p :: p in m ==> m[p] == |PlayerPasses(rows, p)| >= 1
    ensures forall p :: p !in m ==> PlayerPasses(rows, p) == []
  {
    if rows == [] then map[]
    else
      var m := GroupCount(rows[1..]);
      var p := rows[0].player;
      m[p := if p in m then m[p] + 1 else 1]
  }

  /** A column added by index alignment and then `fillna(0)`: the count of a
      player missing from the group is zero. */
  function FillZero(m: map<String, nat>, p: String): nat {
    if p in m then m[p] else 0
  }

  lemma FillZeroCounts(rows: seq<PassRow>, p: String)
    ensures FillZero(GroupCount(rows), p) == |PlayerPasses(rows, p)|
  {
  }

  /** The rows of the table, one per key of the totals column, with the
      completed and incomplete columns aligned to it. */
  function JoinColumns(keys: seq<String>, totals: map<String, nat>,
                       completed: map<String, nat>, incomplete: map<String, nat>): (table: seq<PlayerRow>)
    requires forall p :: p in keys ==> p in totals
    ensures |table| == |keys|
    ensures forall i :: 0 <= i < |keys| ==>
      table[i] == PlayerRow(keys[i], totals[keys[i]], FillZero(completed, keys[i]), FillZero(incomplete, keys[i]))
  {
    if keys == [] then []
    else [PlayerRow(keys[0], totals[keys[0]], FillZero(completed, keys[0]), FillZero(incomplete, keys[0]))]
         + JoinColumns(keys[1..], totals, completed, incomplete)
  }

  /** The `player` column of the statistics table. */
  function RowPlayers(table: seq<PlayerRow>): seq<String> {
    Map(table, (t: PlayerRow) => t.player)
  }

  /** What a row of the table says about a player: the number of passes,
      of completed passes (null outcome) and of incomplete passes (non-null
      outcome) of that player. */
  ghost predicate RowCounts(rows: seq<PassRow>, t: PlayerRow) {
    && t.total == |PlayerPasses(rows, t.player)|
    && t.completed == |Filter(PlayerPasses(rows, t.player), IsCompleted)|
    && t.incomplete == |Filter(PlayerPasses(rows, t.player), IsIncomplete)|
  }

  /** A column counted on a filtered table holds, for each player, the
      number of that player's passes that pass the filter (zero if none). */
  lemma ColumnCount(rows: seq<PassRow>, p: String, keep: PassRow -> bool)
    ensures FillZero(GroupCount(Filter(rows, keep)), p) == |Filter(PlayerPasses(rows, p), keep)|
  {
    FillZeroCounts(Filter(rows, keep), p);
    FilterCommutes(rows, keep, (r: PassRow) => r.player == p);
  }

  /** The per-player table before sorting: every distinct passer once, with
      the number of passes, of completed passes (null outcome) and of
      incomplete passes (non-null outcome), absent sides filled with zero. */
  function PlayerTable(rows: seq<PassRow>): (table: seq<PlayerRow>)
    ensures NoDuplicates(RowPlayers(table))
    ensures forall p :: p in RowPlayers(table) <==> p in Players(rows)
    ensures forall i :: 0 <= i < |table| ==> RowCounts(rows, table[i])
  {
    var totals := GroupCount(rows);
    var completed := GroupCount(Filter(rows, IsCompleted));
    var incomplete := GroupCount(Filter(rows, IsIncomplete));
    var keys := Distinct(Players(rows));
    var table := JoinColumns(keys, totals, completed, incomplete);
    assert RowPlayers(table) == keys;
    forall i | 0 <= i < |table| ensures RowCounts(rows, table[i]) {
      ColumnCount(rows, keys[i], IsCompleted);
      ColumnCount(rows, keys[i], IsIncomplete);
    }
    table
  }

  /** Every row of the table: completed + incomplete = total, and total >= 1. */
  lemma PlayerTableCounts(rows: seq<PassRow>)
    ensures forall t :: t in PlayerTable(rows) ==>
      t.total >= 1 && t.completed + t.incomplete == t.total
  {
    var table := PlayerTable(rows);
    forall t | t in table ensures t.total >= 1 && t.completed + t.incomplete == t.total {
      var i :| 0 <= i < |table| && table[i] == t;
      assert RowCounts(rows, t);
      FilterComplement(PlayerPasses(rows, t.player), IsCompleted, IsIncomplete);
      assert RowPlayers(table)[i] == t.player;
      NonEmptyPlayerPasses(rows, t.player);
    }
  }

  lemma NonEmptyPlayerPasses(rows: seq<PassRow>, p: String)
    requires p in Players(rows)
    ensures |PlayerPasses(rows, p)| >= 1
  {
    var i :| 0 <= i < |rows| && Players(rows)[i] == p;
    assert rows[i] in PlayerPasses(rows, p);
  }

  /** Completion of `a` is at least that of `b`:
      a.completed / a.total >= b.completed / b.total, without division. */
  predicate PctAtLeast(a: PlayerRow, b: PlayerRow) {
    a.completed * b.total >= b.completed * a.total
  }

  /** The completion percentage, completed / total * 100. */
  function Percentage(r: PlayerRow): real
    requires r.total > 0
  {
    (r.completed as real) / (r.total as real) * 100.0
  }

  /** The cross-multiplied comparison orders rows as their percentages do. */
  lemma PctAtLeastIsPercentageOrder(a: PlayerRow, b: PlayerRow)
    requires a.total > 0 && b.total > 0
    ensures PctAtLeast(a, b) <==> Percentage(a) >= Percentage(b)
  {
    var ta, tb := a.total as real, b.total as real;
    var x, y := (a.completed as real) / ta, (b.completed as real) / tb;
    assert x * ta == a.completed as real && y * tb == b.completed as real;
    assert (a.completed * b.total) as real == x * (ta * tb);
    assert (b.completed * a.total) as real == y * (ta * tb);
    assert ta * tb > 0.0;
  }

  /** For a row with completed <= total, the percentage lies in [0, 100]. */
  lemma PercentageInRange(r: PlayerRow)
    requires r.total > 0 && r.completed <= r.total
    ensures 0.0 <= Percentage(r) <= 100.0
  {
  }

  lemma PctAtLeastTransitive(a: PlayerRow, b: PlayerRow, c: PlayerRow)
    requires b.total > 0
    requires PctAtLeast(a, b) && PctAtLeast(b, c)
    ensures PctAtLeast(a, c)
  {
  }

  /** Each row's percentage is at least the next row's. */
  predicate SortedByPct(s: seq<PlayerRow>) {
    forall i :: 0 <= i < |s| - 1 ==> PctAtLeast(s[i], s[i + 1])
  }

  /** Each row's percentage is at least that of every later row. */
  predicate OrderedByPct(s: seq<PlayerRow>) {
    forall i, j :: 0 <= i < j < |s| ==> PctAtLeast(s[i], s[j])
  }

  function InsertByPct(x: PlayerRow, s: seq<PlayerRow>): (r: seq<PlayerRow>)
    requires SortedByPct(s)
    ensures SortedByPct(r)
    ensures multiset(r) == multiset(s) + multiset{x}
    ensures r[0] == x || (s != [] && r[0] == s[0])
  {
    if s == [] then [x]
    else if PctAtLeast(x, s[0]) then [x] + s
    else
      assert s == [s[0]] + s[1..];
      [s[0]] + InsertByPct(x, s[1..])
  }

  /** `sort_values('Porcentaje %', ascending=False)`: the same rows,
      non-increasing by completion percentage. */
  function SortByPct(s: seq<PlayerRow>): (r: seq<PlayerRow>)
    ensures SortedByPct(r)
    ensures multiset(r) == multiset(s)
  {
    if s == [] then []
    else
      assert s == [s[0]] + s[1..];
      InsertByPct(s[0], SortByPct(s[1..]))
  }

  /** Adjacent order is order between any two rows once every total is
      positive. */
  lemma {:induction false} SortedIsOrdered(s: seq<PlayerRow>)
    requires SortedByPct(s)
    requires forall t :: t in s ==> t.total > 0
    ensures OrderedByPct(s)
  {
    if |s| > 1 {
      SortedIsOrdered(s[1..]);
      forall j | 1 < j < |s| ensures PctAtLeast(s[0], s[j]) {
        assert s[1..][j - 1] == s[j];
        assert s[1] in s;
        PctAtLeastTransitive(s[0], s[1], s[j]);
      }
      forall i, j | 0 <= i < j < |s| ensures PctAtLeast(s[i], s[j]) {
        if i > 0 {
          assert s[1..][i - 1] == s[i] && s[1..][j - 1] == s[j];
        }
      }
    }
  }

  /** The statistics table shown by the dashboard. */
  function PassTable(rows: seq<PassRow>): seq<PlayerRow> {
    SortByPct(PlayerTable(rows))
  }

  /** The final table holds the per-player rows, reordered, non-increasing by
      percentage; every row has completed + incomplete = total >= 1 and a
      percentage in [0, 100]; the players are exactly the distinct passers,
      each in one row. */
  lemma PassTableSpec(rows: seq<PassRow>)
    ensures multiset(PassTable(rows)) == multiset(PlayerTable(rows))
    ensures OrderedByPct(PassTable(rows))
    ensures forall t :: t in PassTable(rows) ==>
      && RowCounts(rows, t)
      && t.total >= 1 && t.completed + t.incomplete == t.total
      && 0.0 <= Percentage(t) <= 100.0
    ensures forall p :: p in RowPlayers(PassTable(rows)) <==> p in Players(rows)
    ensures NoDuplicates(RowPlayers(PassTable(rows)))
  {
    var table, sorted := PlayerTable(rows), PassTable(rows);
    SameRows(table, sorted);
    PlayerTableCounts(rows);
    forall t | t in sorted ensures RowCounts(rows, t) && 0.0 <= Percentage(t) <= 100.0 {
      var i :| 0 <= i < |table| && table[i] == t;
      PercentageInRange(t);
    }
    SortedIsOrdered(sorted);
    PermutedPlayers(table, sorted);
  }

  lemma SameRows(a: seq<PlayerRow>, b: seq<PlayerRow>)
    requires multiset(a) == multiset(b)
    ensures forall t :: t in a <==> t in b
  {
    forall t ensures t in a <==> t in b {
      assert t in a <==> t in multiset(a);
      assert t in b <==> t in multiset(b);
    }
  }

  /** Reordering the rows keeps the set of players and their uniqueness. */
  lemma PermutedPlayers(a: seq<PlayerRow>, b: seq<PlayerRow>)
    requires multiset(a) == multiset(b)
    requires NoDuplicates(RowPlayers(a))
    ensures forall p :: p in RowPlayers(a) <==> p in RowPlayers(b)
    ensures NoDuplicates(RowPlayers(b))
  {
    SameRows(a, b);
    forall p ensures p in RowPlayers(a) <==> p in RowPlayers(b) {
      if p in RowPlayers(a) {
        var i :| 0 <= i < |a| && RowPlayers(a)[i] == p;
        assert a[i] in b;
        var j :| 0 <= j < |b| && b[j] == a[i];
        assert RowPlayers(b)[j] == p;
      }
      if p in RowPlayers(b) {
        var j :| 0 <= j < |b| && RowPlayers(b)[j] == p;
        assert b[j] in a;
        var i :| 0 <= i < |a| && a[i] == b[j];
        assert RowPlayers(a)[i] == p;
      }
    }
    assert NoDuplicates(a) by {
      forall i, j | 0 <= i < j < |a| ensures a[i] != a[j] {
        assert RowPlayers(a)[i] != RowPlayers(a)[j];
      }
    }
    PermutationNoDuplicates(a, b);
    forall i, j | 0 <= i < j < |b| ensures RowPlayers(b)[i] != RowPlayers(b)[j] {
      assert b[i] in a && b[j] in a;
      var k :| 0 <= k < |a| && a[k] == b[i];
      var l :| 0 <= l < |a| && a[l] == b[j];
      assert k != l;
      assert RowPlayers(a)[k] != RowPlayers(a)[l];
    }
  }
}
