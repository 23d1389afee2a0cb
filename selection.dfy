/** The selection cascade of the dashboard (main.py): team and match choices,
    the synthesized match label, the opponent recovered from that label, and
    the player-name shortening helper. */
module Selection {
  import opened Wrappers
  import opened Collections
  import opened Text

  /** One row of the match list of a competition and season. */
  datatype Match = Match(matchId: int, homeTeam: String, awayTeam: String)

  /** A match row once the `match` label column has been added. */
  datatype LabelledMatch = LabelledMatch(game: Match, matchLabel: String)

  /** The `match` column: home team, the separator, away team. */
  function MatchLabel(home: String, away: String): String {
    home + Sep + away
  }

  function Labelled(m: Match): LabelledMatch {
    LabelledMatch(m, MatchLabel(m.homeTeam, m.awayTeam))
  }

  predicate Plays(m: Match, team: String) {
    m.homeTeam == team || m.awayTeam == team
  }

  /** A home-team name that survives being put into a label and split out
      again: it holds no separator, and it does not end in " vs" (which
      would overlap the separator that follows it). Together with an away
      name that holds no separator, this is exactly when the label splits
      back into its two names (`SplitLabel`). */
  ghost predicate SafeTeamName(t: String) {
    !Contains(t, Sep) && !EndsWith(t, " vs")
  }

  /** The team dropdown: the distinct home teams of the match list. */
  function TeamOptions(ms: seq<Match>): (teams: seq<String>)
    ensures NoDuplicates(teams)
    ensures forall t :: t in teams <==> exists m :: m in ms && m.homeTeam == t
  {
    Distinct(HomeTeams(ms))
  }

  function HomeTeams(ms: seq<Match>): (hs: seq<String>)
    ensures forall t :: t in hs <==> exists m :: m in ms && m.homeTeam == t
  {
    var hs := Map(ms, (m: Match) => m.homeTeam);
    assert forall t :: t in hs <==> exists m :: m in ms && m.homeTeam == t by {
      forall t ensures t in hs <==> exists m :: m in ms && m.homeTeam == t {
        if t in hs {
          var i :| 0 <= i < |hs| && hs[i] == t;
          assert ms[i] in ms;
        }
      }
    }
    hs
  }

  /** The matches of the selected team, each with its label, in the order of
      the match list. */
  function MatchesFor(ms: seq<Match>, team: String): (r: seq<LabelledMatch>)
    ensures |r| <= |ms|
    ensures forall lm :: lm in r ==> Plays(lm.game, team) && lm == Labelled(lm.game)
    ensures forall m :: m in ms && Plays(m, team) <==> Labelled(m) in r
  {
    if ms == [] then []
    else
      assert forall m :: m in ms <==> m == ms[0] || m in ms[1..];
      (if Plays(ms[0], team) then [Labelled(ms[0])] else []) + MatchesFor(ms[1..], team)
  }

  /** The matches of the team are the rows kept by the mask on the match
      list, in match-list order, each with its label column added. */
  lemma {:induction false} MatchesForIsMask(ms: seq<Match>, team: String)
    ensures MatchesFor(ms, team) == Map(Filter(ms, (m: Match) => Plays(m, team)), Labelled)
  {
    if ms != [] {
      MatchesForIsMask(ms[1..], team);
    }
  }

  /** The `match` column of the team's matches. */
  function Labels(r: seq<LabelledMatch>): seq<String> {
    Map(r, (lm: LabelledMatch) => lm.matchLabel)
  }

  /** The match dropdown: the distinct labels of the team's matches. */
  function MatchOptions(r: seq<LabelledMatch>): (options: seq<String>)
    ensures NoDuplicates(options)
    ensures forall l :: l in options <==> exists lm :: lm in r && lm.matchLabel == l
  {
    var ls := Labels(r);
    assert forall l :: l in ls <==> exists lm :: lm in r && lm.matchLabel == l by {
      forall l ensures l in ls <==> exists lm :: lm in r && lm.matchLabel == l {
        if l in ls {
          var i :| 0 <= i < |ls| && ls[i] == l;
          assert r[i] in r;
        }
      }
    }
    Distinct(ls)
  }

  /** The id of the first labelled match whose label is the chosen one;
      None where pandas' `iloc[0]` would raise on an empty selection. */
  function FirstMatchId(r: seq<LabelledMatch>, chosen: String): (id: Option<int>)
    ensures id.None? <==> forall lm :: lm in r ==> lm.matchLabel != chosen
    ensures id.Some? ==> exists k :: 0 <= k < |r| && r[k].matchLabel == chosen && r[k].game.matchId == id.value
                                     && forall j :: 0 <= j < k ==> r[j].matchLabel != chosen
  {
    if r == [] then None
    else if r[0].matchLabel == chosen then Some(r[0].game.matchId)
    else
      var rest := FirstMatchId(r[1..], chosen);
      assert forall lm :: lm in r <==> lm == r[0] || lm in r[1..];
      if rest.Some? then
        var k :| 0 <= k < |r[1..]| && r[1..][k].matchLabel == chosen && r[1..][k].game.matchId == rest.value
                 && forall j :: 0 <= j < k ==> r[1..][j].matchLabel != chosen;
        assert forall j :: 0 <= j < k + 1 ==> r[j].matchLabel != chosen by {
          forall j | 0 <= j < k + 1 ensures r[j].matchLabel != chosen {
            if j > 0 { assert r[j] == r[1..][j - 1]; }
          }
        }
        rest
      else rest
  }

  /** `get_opponent`: split the label on the separator and return the first
      piece if the second is the local team, otherwise the second piece.
      There is no second piece (Python raises IndexError) exactly when the
      label holds no separator. */
  function GetOpponent(matchLabel: String, localTeam: String): (r: Option<String>)
    ensures r.None? <==> !Contains(matchLabel, Sep)
    ensures r.Some? ==> r.value in SplitOn(matchLabel, Sep)[..2]
  {
    var teams := SplitOn(matchLabel, Sep);
    if |teams| < 2 then None
    else Some(if teams[1] == localTeam then teams[0] else teams[1])
  }

  /** In a label whose home side is safe, the separator does not start
      inside the home side. */
  lemma NoSepBeforeBoundary(home: String, away: String, j: nat)
    requires SafeTeamName(home) && j < |home|
    ensures !OccursAt(MatchLabel(home, away), Sep, j)
  {
    var s := MatchLabel(home, away);
    var n := |home|;
    assert s[..n] == home;
    if j + 4 <= n {
      assert s[j..j + 4] == s[..n][j..j + 4];
      assert !OccursAt(home, Sep, j);
    } else if j + 4 <= |s| {
      var w := s[j..j + 4];
      assert s[n] == ' ';
      if j == n - 1 {
        assert w[1] == s[n];
      } else if j == n - 2 {
        assert w[2] == s[n];
      } else {
        assert w[..3] == s[..n][n - 3..];
        assert !EndsWith(home, " vs");
      }
    }
  }

  /** A label whose home side is safe splits into the home name followed by
      the pieces of the away name. */
  lemma SplitLabelHead(home: String, away: String)
    requires SafeTeamName(home)
    ensures SplitOn(MatchLabel(home, away), Sep) == [home] + SplitOn(away, Sep)
  {
    var s := MatchLabel(home, away);
    var n := |home|;
    assert s[..n] == home && s[n + 4..] == away;
    assert s[n] == ' ' && s[n + 1] == 'v' && s[n + 2] == 's' && s[n + 3] == ' ';
    assert s[n..n + 4] == Sep;
    forall j: nat | j < n ensures !OccursAt(s, Sep, j) {
      NoSepBeforeBoundary(home, away, j);
    }
    SplitAt(s, Sep, n);
  }

  /** A label splits back into exactly its two names if and only if the
      home name is safe and the away name holds no separator. A separator
      inside the home name, or a home name ending in " vs", makes the first
      piece shorter than the home name; a separator inside the away name
      makes more than two pieces. */
  lemma SplitLabel(home: String, away: String)
    ensures SplitOn(MatchLabel(home, away), Sep) == [home, away]
            <==> SafeTeamName(home) && !Contains(away, Sep)
  {
    var s := MatchLabel(home, away);
    var n := |home|;
    assert s[..n] == home;
    if SafeTeamName(home) {
      SplitLabelHead(home, away);
      if !Contains(away, Sep) {
        assert SplitOn(away, Sep) == [away];
      }
    } else if Contains(home, Sep) {
      var j: nat :| OccursAt(home, Sep, j);
      assert s[j..j + 4] == home[j..j + 4];
      FirstPieceBefore(s, Sep, j);
    } else {
      assert home[n - 3..] == " vs" && s[n] == ' ';
      assert s[n - 3..n + 1] == Sep;
      FirstPieceBefore(s, Sep, n - 3);
    }
  }

  /** Round trip of the label: whichever side is the selected team,
      `get_opponent` returns the other side. */
  lemma OpponentRoundTrip(home: String, away: String)
    requires SafeTeamName(home) && !Contains(away, Sep)
    ensures GetOpponent(MatchLabel(home, away), away) == Some(home)
    ensures GetOpponent(MatchLabel(home, away), home) == Some(away)
  {
    SplitLabel(home, away);
  }

  /** `get_opponent` does not check that the local team is in the label:
      for any team other than the away side, including one that plays in
      neither slot, it returns the away side. */
  lemma OpponentUnvalidated(home: String, away: String, team: String)
    requires SafeTeamName(home) && !Contains(away, Sep)
    requires team != away
    ensures GetOpponent(MatchLabel(home, away), team) == Some(away)
  {
    SplitLabel(home, away);
  }

  /** A string without the letter v holds no separator. */
  lemma NoSepWithoutV(t: String)
    requires 'v' !in t
    ensures !Contains(t, Sep)
  {
    forall j: nat ensures !OccursAt(t, Sep, j) {
      if j + 4 <= |t| {
        assert t[j..j + 4][1] == t[j + 1] && t[j + 1] in t;
      }
    }
  }

  /** Not containing the separator is not enough for the home side: "X vs"
      overlaps the separator after it, so the label "X vs vs Y" splits as
      ["X", "vs Y"] and the opponent of "Y" comes back as "vs Y". */
  lemma OpponentOverlappingName()
    ensures !Contains("X vs", Sep) && !Contains("Y", Sep)
    ensures GetOpponent(MatchLabel("X vs", "Y"), "Y") == Some("vs Y")
  {
    assert !Contains("X vs", Sep) by {
      forall j: nat ensures !OccursAt("X vs", Sep, j) {
        if j == 0 { assert "X vs"[0..4][0] == 'X'; }
      }
    }
    NoSepWithoutV("Y");
    var s := MatchLabel("X vs", "Y");
    assert s == "X" + Sep + "vs Y";
    assert SplitOn(s, Sep) == ["X", "vs Y"] by {
      assert !Contains("X", Sep) by { NoSepWithoutV("X"); }
      assert !EndsWith("X", " vs");
      assert !Contains("vs Y", Sep) by {
        forall j: nat ensures !OccursAt("vs Y", Sep, j) {
          if j == 0 { assert "vs Y"[0..4][0] == 'v'; }
        }
      }
      SplitLabel("X", "vs Y");
    }
  }

  /** The split can be wrong while `get_opponent` is still right: the label
      of "vs vs" against "vs" splits as ["vs", "vs vs"], yet each side gets
      the other one back. */
  lemma OpponentOverlapRoundTrip()
    ensures SplitOn(MatchLabel("vs vs", "vs"), Sep) != ["vs vs", "vs"]
    ensures GetOpponent(MatchLabel("vs vs", "vs"), "vs") == Some("vs vs")
    ensures GetOpponent(MatchLabel("vs vs", "vs"), "vs vs") == Some("vs")
  {
    assert MatchLabel("vs vs", "vs") == MatchLabel("vs", "vs vs");
    NoSepInShortName("vs");
    NoSepInShortName("vs vs");
    SplitLabel("vs", "vs vs");
  }

  /** A name shorter than the separator plus one character holds it only
      at its start. */
  lemma NoSepInShortName(t: String)
    requires |t| < 6 && (|t| < 4 || t[0] != ' ') && (|t| < 5 || t[1] != ' ')
    ensures !Contains(t, Sep)
  {
    forall j: nat ensures !OccursAt(t, Sep, j) {
      if j + 4 <= |t| {
        assert t[j..j + 4][0] == t[j];
      }
    }
  }

  /** A worked example: the opponent of "Team X" in
      "Team X vs Team Y" is "Team Y". */
  lemma OpponentExample()
    ensures GetOpponent("Team X vs Team Y", "Team X") == Some("Team Y")
  {
    assert MatchLabel("Team X", "Team Y") == "Team X vs Team Y";
    NoSepWithoutV("Team X");
    NoSepWithoutV("Team Y");
    assert !EndsWith("Team X", " vs") by { assert "Team X"[5] != 's'; }
    OpponentUnvalidated("Team X", "Team Y", "Team X");
  }

  /** The side of a match that is not the given team. */
  function OtherSide(m: Match, team: String): String {
    if m.homeTeam == team then m.awayTeam else m.homeTeam
  }

  /** A match of the team whose label is the chosen one. */
  predicate Carries(m: Match, team: String, chosen: String) {
    Plays(m, team) && Labelled(m).matchLabel == chosen
  }

  /** `ms[k]` is the earliest match of the team whose label is the chosen
      one. */
  predicate FirstCarrier(ms: seq<Match>, team: String, chosen: String, k: nat) {
    k < |ms| && Carries(ms[k], team, chosen)
    && forall j :: 0 <= j < k ==> !Carries(ms[j], team, chosen)
  }

  /** The cascade from team to match: any label offered in the match dropdown
      resolves to the id of the FIRST match of the team in the match list
      that carries that label, and for every match of the team that carries
      the label, has a safe home name and an away name without the
      separator, `get_opponent` on the label names the other side of that
      match. */
  lemma ChosenMatchResolves(ms: seq<Match>, team: String, chosen: String)
    requires chosen in MatchOptions(MatchesFor(ms, team))
    ensures exists k: nat :: FirstCarrier(ms, team, chosen, k)
                             && FirstMatchId(MatchesFor(ms, team), chosen) == Some(ms[k].matchId)
    ensures forall m :: m in ms && Carries(m, team, chosen)
                        && SafeTeamName(m.homeTeam) && !Contains(m.awayTeam, Sep) ==>
              GetOpponent(chosen, team) == Some(OtherSide(m, team))
  {
    var lm :| lm in MatchesFor(ms, team) && lm.matchLabel == chosen;
    FirstOfTeam(ms, team, chosen);
    forall m | m in ms && Carries(m, team, chosen)
               && SafeTeamName(m.homeTeam) && !Contains(m.awayTeam, Sep)
      ensures GetOpponent(chosen, team) == Some(OtherSide(m, team))
    {
      OpponentRoundTrip(m.homeTeam, m.awayTeam);
    }
  }

  /** `iloc[0]` on the team's matches with the chosen label picks the
      earliest such match of the match list. */
  lemma {:induction false} FirstOfTeam(ms: seq<Match>, team: String, chosen: String)
    requires FirstMatchId(MatchesFor(ms, team), chosen).Some?
    ensures exists k: nat :: FirstCarrier(ms, team, chosen, k)
                             && FirstMatchId(MatchesFor(ms, team), chosen) == Some(ms[k].matchId)
  {
    assert ms != [];
    if Carries(ms[0], team, chosen) {
      FirstIsHead(ms, team, chosen);
      assert FirstCarrier(ms, team, chosen, 0);
    } else {
      SkipHead(ms, team, chosen);
      FirstOfTeam(ms[1..], team, chosen);
      var k: nat :| FirstCarrier(ms[1..], team, chosen, k)
                    && FirstMatchId(MatchesFor(ms[1..], team), chosen) == Some(ms[1..][k].matchId);
      FirstCarrierShift(ms, team, chosen, k);
    }
  }

  lemma FirstCarrierShift(ms: seq<Match>, team: String, chosen: String, k: nat)
    requires ms != [] && !Carries(ms[0], team, chosen)
    requires FirstCarrier(ms[1..], team, chosen, k)
    ensures FirstCarrier(ms, team, chosen, k + 1) && ms[k + 1] == ms[1..][k]
  {
    forall j | 0 <= j < k + 1 ensures !Carries(ms[j], team, chosen) {
      if j > 0 { assert ms[j] == ms[1..][j - 1]; }
    }
  }

  lemma FirstIsHead(ms: seq<Match>, team: String, chosen: String)
    requires ms != [] && Carries(ms[0], team, chosen)
    ensures FirstMatchId(MatchesFor(ms, team), chosen) == Some(ms[0].matchId)
  {
    assert MatchesFor(ms, team)[0] == Labelled(ms[0]);
  }

  lemma SkipHead(ms: seq<Match>, team: String, chosen: String)
    requires ms != [] && !Carries(ms[0], team, chosen)
    ensures FirstMatchId(MatchesFor(ms, team), chosen) == FirstMatchId(MatchesFor(ms[1..], team), chosen)
  {
    var r, rest := MatchesFor(ms, team), MatchesFor(ms[1..], team);
    if Plays(ms[0], team) {
      assert r == [Labelled(ms[0])] + rest;
      FirstMatchIdSkip(r, chosen);
      assert r[1..] == rest;
    } else {
      assert r == rest;
    }
  }

  lemma FirstMatchIdSkip(r: seq<LabelledMatch>, chosen: String)
    requires r != [] && r[0].matchLabel != chosen
    ensures FirstMatchId(r, chosen) == FirstMatchId(r[1..], chosen)
  {
  }

  /** `shorten_name`: the first and the last whitespace-separated token,
      joined by one space; a blank name (Python raises IndexError) gives
      None. The result splits into exactly those two tokens. */
  function ShortenName(name: String): (r: Option<String>)
    ensures r.None? <==> IsBlank(name)
    ensures r.Some? ==> Words(r.value) == [Words(name)[0], Words(name)[|Words(name)| - 1]]
  {
    var parts := Words(name);
    if parts == [] then None
    else
      var short := parts[0] + " " + parts[|parts| - 1];
      WordsJoinWords([parts[0], parts[|parts| - 1]]);
      assert JoinOn([parts[|parts| - 1]], " ") == parts[|parts| - 1];
      assert [parts[0], parts[|parts| - 1]][1..] == [parts[|parts| - 1]];
      assert JoinWords([parts[0], parts[|parts| - 1]]) == short;
      Some(short)
  }

  /** A one-token name comes back with that token twice. */
  lemma ShortenSingleToken(w: String)
    requires IsWord(w)
    ensures ShortenName(w) == Some(w + " " + w)
  {
    WordsJoinWords([w]);
  }

  /** A name made of words keeps its first and last word. */
  lemma ShortenJoined(ws: seq<String>)
    requires ws != [] && forall w :: w in ws ==> IsWord(w)
    ensures ShortenName(JoinWords(ws)) == Some(ws[0] + " " + ws[|ws| - 1])
  {
    var name := JoinWords(ws);
    WordsJoinWords(ws);
    assert Words(name) == ws;
  }

  /** Only the tokens of a name matter: collapsing every run of whitespace
      (tabs, newlines, repeated or surrounding spaces) into one space first
      gives the same result, so `ShortenJoined` covers every name. */
  lemma ShortenNormalised(name: String)
    ensures ShortenName(name) == ShortenName(JoinWords(Words(name)))
  {
    var ws := Words(name);
    var normal := JoinWords(ws);
    WordsJoinWords(ws);
    assert Words(normal) == ws;
    if ws == [] {
      assert normal == [];
    }
  }

  /** Any run of whitespace between two names (tabs, newlines, several
      spaces) becomes one space: "John\tSmith" gives "John Smith". */
  lemma ShortenAcrossBlank(first: String, gap: String, last: String)
    requires IsWord(first) && IsWord(last)
    requires gap != [] && IsBlank(gap)
    ensures ShortenName(first + gap + last) == Some(first + " " + last)
  {
    assert first + gap + last == first + (gap + last);
    assert IsSpace((gap + last)[0]);
    WordsOfWord(first, gap + last);
    WordsSkipsBlank(gap, last);
    WordsOfWord(last, []);
    assert last + [] == last;
  }

  /** Shortening twice is shortening once. */
  lemma ShortenIdempotent(name: String)
    requires !IsBlank(name)
    ensures ShortenName(ShortenName(name).value) == ShortenName(name)
  {
  }
}
