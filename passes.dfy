/** The event normaliser of main.py: keep the passes of the match, split
    their two-element location lists into scalar coordinates, and keep the
    passes of the selected team. */
module Passes {
  import opened Wrappers
  import opened Collections
  import opened Text

  /** One event record of a match. `location` and `passEndLocation` are the
      lists the provider sends (a pass carries two numbers in each);
      `passOutcome` is None for a completed pass and names the failure
      otherwise. */
  datatype Event = Event(
    eventType: String,
    team: String,
    player: String,
    location: seq<real>,
    passEndLocation: seq<real>,
    passOutcome: Option<String>)

  /** A pass row once its coordinates have their own columns. */
  datatype PassRow = PassRow(
    team: String,
    player: String,
    outcome: Option<String>,
    x: real,
    y: real,
    endX: real,
    endY: real)

  predicate IsPass(e: Event) {
    e.eventType == "Pass"
  }

  /** The shape of every pass this model covers: both locations are pairs. */
  predicate WellFormedPass(e: Event) {
    |e.location| == 2 && |e.passEndLocation| == 2
  }

  /** Splitting the location lists of one pass into the columns x, y,
      pass_end_x and pass_end_y; putting the columns back together gives
      the lists again, and the other columns are carried over. */
  function SplitLocations(e: Event): (r: PassRow)
    requires WellFormedPass(e)
    ensures [r.x, r.y] == e.location && [r.endX, r.endY] == e.passEndLocation
    ensures r.team == e.team && r.player == e.player && r.outcome == e.passOutcome
  {
    PassRow(e.team, e.player, e.passOutcome,
            e.location[0], e.location[1], e.passEndLocation[0], e.passEndLocation[1])
  }

  /** The events of type "Pass", in match order. */
  function PassEvents(events: seq<Event>): (passes: seq<Event>)
    ensures forall e :: e in passes <==> e in events && IsPass(e)
  {
    Filter(events, IsPass)
  }

  /** The coordinate split applied to every row of the pass table. */
  function SplitAll(passes: seq<Event>): (rows: seq<PassRow>)
    requires forall e :: e in passes ==> WellFormedPass(e)
    ensures |rows| == |passes|
    ensures forall i :: 0 <= i < |passes| ==> rows[i] == SplitLocations(passes[i])
  {
    if passes == [] then [] else [SplitLocations(passes[0])] + SplitAll(passes[1..])
  }

  /** The pass table of the match: passes only, coordinates split. */
  function NormalisePasses(events: seq<Event>): (rows: seq<PassRow>)
    requires forall e :: e in events && IsPass(e) ==> WellFormedPass(e)
    ensures |rows| == |PassEvents(events)|
    ensures forall i :: 0 <= i < |rows| ==> rows[i] == SplitLocations(PassEvents(events)[i])
  {
    SplitAll(PassEvents(events))
  }

  /** The passes of the selected team. */
  function TeamPasses(rows: seq<PassRow>, team: String): (selected: seq<PassRow>)
    ensures forall r :: r in selected <==> r in rows && r.team == team
  {
    Filter(rows, (r: PassRow) => r.team == team)
  }

  /** Reference definition of what reaches the aggregation: walk the events
      in order and keep, with split coordinates, each pass of the team. */
  function SelectedPasses(events: seq<Event>, team: String): seq<PassRow>
    requires forall e :: e in events && IsPass(e) ==> WellFormedPass(e)
  {
    if events == [] then []
    else
      var e := events[0];
      (if IsPass(e) && e.team == team then [SplitLocations(e)] else []) + SelectedPasses(events[1..], team)
  }

  /** The rows reaching the aggregation are exactly the team's passes of the
      match, in match order, with their coordinates split. */
  lemma {:induction false} TeamPassesOfMatch(events: seq<Event>, team: String)
    requires forall e :: e in events && IsPass(e) ==> WellFormedPass(e)
    ensures TeamPasses(NormalisePasses(events), team) == SelectedPasses(events, team)
  {
    if events != [] {
      var e := events[0];
      assert events == [e] + events[1..];
      TeamPassesOfMatch(events[1..], team);
      FilterConcat([e], events[1..], IsPass);
      var head := SplitAll(Filter([e], IsPass));
      var tail := SplitAll(PassEvents(events[1..]));
      SplitAllConcat(Filter([e], IsPass), PassEvents(events[1..]));
      FilterConcat(head, tail, (r: PassRow) => r.team == team);
    }
  }

  lemma {:induction false} SplitAllConcat(a: seq<Event>, b: seq<Event>)
    requires forall e :: e in a + b ==> WellFormedPass(e)
    ensures SplitAll(a + b) == SplitAll(a) + SplitAll(b)
  {
  }
}
