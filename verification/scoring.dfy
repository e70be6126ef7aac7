/**
 * The scoring loop at the end of both `main` functions: every player listed
 * by `Grid::players` is scored by `get_longest_path` on their road cells, and
 * a player is kept only on a length strictly greater than the best so far,
 * which starts at 0.
 */
module Scoring {
  import opened Collections
  import opened Board
  import Reduce
  import SetPath
  import VecPath
  import SimplePaths

  /** One player's score: the length of the path `get_longest_path` returned, if any. */
  datatype Entry = Entry(player: Player, longest: Option<nat>)

  /** The loop's state: `longest_road` and `winner`. */
  datatype Standing = Standing(best: nat, winner: Option<Player>)

  /** What an entry can beat the running best with; a missing path counts as nothing. */
  function Score(e: Entry): nat {
    match e.longest
    case Some(n) => n
    case None => 0
  }

  /** The `for player in players` loop over `entries`, starting from `st`. */
  function Tournament(entries: seq<Entry>, st: Standing): (r: Standing)
    ensures st.best <= r.best
    ensures forall k | 0 <= k < |entries| :: Score(entries[k]) <= r.best
    ensures r.best == st.best ==> r.winner == st.winner
    ensures r.best > st.best ==> r.winner.Some?
  {
    if entries == [] then st
    else
      var e := entries[0];
      var st' :=
        match e.longest
        case Some(n) => if n > st.best then Standing(n, Some(e.player)) else st
        case None => st;
      var r := Tournament(entries[1..], st');
      assert forall k | 1 <= k < |entries| :: entries[k] == entries[1..][k - 1];
      r
  }

  /** `entries[k]` is the first entry whose score reaches `best`. */
  ghost predicate FirstBestAt(entries: seq<Entry>, best: nat, k: int) {
    && 0 <= k < |entries|
    && Score(entries[k]) == best
    && forall j | 0 <= j < k :: Score(entries[j]) < best
  }

  /** A winner that replaced the starting one is the first entry with the final best score. */
  lemma {:induction false} TournamentPicksFirst(entries: seq<Entry>, st: Standing)
    ensures var r := Tournament(entries, st);
      r.best > st.best ==> exists k :: FirstBestAt(entries, r.best, k) && entries[k].player == r.winner.value
  {
    if entries != [] {
      var e := entries[0];
      var st' :=
        match e.longest
        case Some(n) => if n > st.best then Standing(n, Some(e.player)) else st
        case None => st;
      var r := Tournament(entries, st);
      var tail := entries[1..];
      assert r == Tournament(tail, st');
      TournamentPicksFirst(tail, st');
      if r.best > st'.best {
        var k :| FirstBestAt(tail, r.best, k) && tail[k].player == r.winner.value;
        assert Score(e) <= st'.best;
        assert FirstBestAt(entries, r.best, k + 1) by {
          forall j | 0 <= j < k + 1
            ensures Score(entries[j]) < r.best
          {
            if j > 0 {
              assert entries[j] == tail[j - 1];
            }
          }
        }
      } else if r.best > st.best {
        assert st'.best > st.best;
        assert FirstBestAt(entries, r.best, 0);
      }
    }
  }

  /**
   * The scoring loop from `longest_road = 0` and `winner = None`. No winner
   * exactly when no entry scores above 0; otherwise the winner is the first
   * entry with the highest score, and ties keep the earlier player.
   */
  function Winner(entries: seq<Entry>): (r: Standing)
    ensures forall k | 0 <= k < |entries| :: Score(entries[k]) <= r.best
    ensures r.winner.None? <==> r.best == 0
    ensures r.winner.None? <==> forall k | 0 <= k < |entries| :: Score(entries[k]) == 0
    ensures r.winner.Some? ==> exists k :: FirstBestAt(entries, r.best, k) && entries[k].player == r.winner.value
  {
    var r := Tournament(entries, Standing(0, None));
    TournamentPicksFirst(entries, Standing(0, None));
    assert r.winner.Some? ==> r.best > 0;
    r
  }

  /** Turns `get_longest_path`'s answer into the length the loop compares. */
  function LengthOf<P>(o: Option<P>, size: P -> nat): Option<nat> {
    match o
    case Some(p) => Some(size(p))
    case None => None
  }

  /** The entries scored by `src/bin/longest_road.rs`. */
  ghost function SetEntries(g: Grid, players: seq<Player>): (r: seq<Entry>)
    ensures |r| == |players|
    ensures forall k | 0 <= k < |r| ::
      r[k] == Entry(players[k], LengthOf(SetPath.GetLongestPath(SetPath.RoadsForPlayer(g, players[k])), SetPath.Card))
  {
    if players == [] then []
    else
      var pl := players[0];
      var longest := SetPath.GetLongestPath(SetPath.RoadsForPlayer(g, pl));
      var rest := SetEntries(g, players[1..]);
      var r := [Entry(pl, LengthOf(longest, SetPath.Card))] + rest;
      assert forall k | 1 <= k < |players| :: r[k] == rest[k - 1] && players[k] == players[1..][k - 1];
      r
  }

  /** The scoring loop of `src/bin/longest_road.rs` on a grid: no player ever wins. */
  ghost function SetMain(g: Grid): (r: Standing)
    ensures r == Standing(0, None)
  {
    var entries := SetEntries(g, Players(g));
    var r := Winner(entries);
    assert forall k | 0 <= k < |entries| :: Score(entries[k]) == 0;
    r
  }

  /**
   * The `for player in players` loop of `src/main.rs` with each player's
   * `get_longest_path` answer given in order: it stops at the first panic,
   * and otherwise pairs every player with their answer.
   */
  function ScoreAll(players: seq<Player>, answers: seq<Outcome<Option<nat>>>): (r: Outcome<seq<Entry>>)
    requires |answers| == |players|
    ensures r.Ok? <==> forall k | 0 <= k < |answers| :: answers[k].Ok?
    ensures r.Ok? ==> |r.value| == |players|
    ensures r.Ok? ==> forall k | 0 <= k < |players| :: r.value[k] == Entry(players[k], answers[k].value)
    ensures r.Panic? ==> exists k | 0 <= k < |answers| ::
      answers[k] == Panic(r.message) && forall j | 0 <= j < k :: answers[j].Ok?
  {
    if players == [] then Ok([])
    else
      var rest := ScoreAll(players[1..], answers[1..]);
      assert forall k | 1 <= k < |answers| :: answers[k] == answers[1..][k - 1];
      match answers[0]
      case Panic(m) => Panic(m)
      case Ok(longest) =>
        match rest
        case Panic(m) =>
          var k :| 0 <= k < |answers| - 1 && answers[1..][k] == Panic(m) && forall j | 0 <= j < k :: answers[1..][j].Ok?;
          assert answers[k + 1] == Panic(m);
          Panic(m)
        case Ok(entries) =>
          var r := [Entry(players[0], longest)] + entries;
          assert forall k | 1 <= k < |players| :: r[k] == entries[k - 1];
          Ok(r)
  }

  /** One player's answer in `src/main.rs`: a panic, or no path at all. */
  ghost function VecAnswer(g: Grid, pl: Player): (r: Outcome<Option<nat>>)
    ensures r.Ok? <==> FirstCellHasNeighbour(VecPath.RoadsForPlayer(g, pl))
    ensures r.Ok? ==> r.value == None
  {
    match VecPath.GetLongestPath(VecPath.RoadsForPlayer(g, pl))
    case Ok(longest) => Ok(LengthOf(longest, VecPath.Len))
    case Panic(m) => Panic(m)
  }

  /** The answers of `src/main.rs` for `players`, in order. */
  ghost function VecAnswers(g: Grid, players: seq<Player>): seq<Outcome<Option<nat>>> {
    seq(|players|, k requires 0 <= k < |players| => VecAnswer(g, players[k]))
  }

  /** The road list is non-empty and its first cell has a neighbour in it. */
  predicate FirstCellHasNeighbour(data: seq<Pos>) {
    |data| > 0 && VecPath.HasAdjacent(data, data[0])
  }

  /**
   * The scoring loop of `src/main.rs` on a grid. It panics exactly when some
   * player's road list is empty or its first cell has no neighbour in it;
   * when it does not panic, no player wins.
   */
  ghost function VecMain(g: Grid): (r: Outcome<Standing>)
    ensures r.Ok? <==> forall pl | pl in Players(g) :: FirstCellHasNeighbour(VecPath.RoadsForPlayer(g, pl))
    ensures r.Ok? ==> r.value == Standing(0, None)
  {
    var players := Players(g);
    var answers := VecAnswers(g, players);
    var out := ScoreAll(players, answers);
    VecOutcome(g, players, answers, out);
    match out
    case Panic(m) => Panic(m)
    case Ok(entries) => Ok(Winner(entries))
  }

  /** The loop of `src/main.rs` completes exactly when every answer is `Ok`, and then nobody scores. */
  lemma VecOutcome(g: Grid, players: seq<Player>, answers: seq<Outcome<Option<nat>>>, out: Outcome<seq<Entry>>)
    requires answers == VecAnswers(g, players) && out == ScoreAll(players, answers)
    ensures out.Ok? <==> forall pl | pl in players :: FirstCellHasNeighbour(VecPath.RoadsForPlayer(g, pl))
    ensures out.Ok? ==> forall k | 0 <= k < |out.value| :: Score(out.value[k]) == 0
  {
    AllAnswered(g, players, answers);
    if out.Ok? {
      forall k | 0 <= k < |out.value|
        ensures Score(out.value[k]) == 0
      {
        assert answers[k].value == None;
      }
    }
  }

  /** Every answer is `Ok` exactly when every listed player's first road cell has a neighbour. */
  lemma AllAnswered(g: Grid, players: seq<Player>, answers: seq<Outcome<Option<nat>>>)
    requires answers == VecAnswers(g, players)
    ensures (forall k | 0 <= k < |answers| :: answers[k].Ok?)
        <==> forall pl | pl in players :: FirstCellHasNeighbour(VecPath.RoadsForPlayer(g, pl))
  {
    if forall k | 0 <= k < |answers| :: answers[k].Ok? {
      forall pl | pl in players
        ensures FirstCellHasNeighbour(VecPath.RoadsForPlayer(g, pl))
      {
        var k :| 0 <= k < |players| && players[k] == pl;
        assert answers[k].Ok?;
      }
    }
  }

  /** A player who owns a base but no road cell makes `src/main.rs` panic. */
  lemma BaseOnlyPlayerPanics(g: Grid, pl: Player, k: Pos)
    requires k in g && g[k] == Base(pl)
    requires forall x | x in g :: g[x] != Slot.Path(pl)
    ensures VecMain(g).Panic?
  {
    assert pl in Players(g);
    assert !FirstCellHasNeighbour(VecPath.RoadsForPlayer(g, pl));
  }

  /** The entries the longest-road rule calls for: each player's longest simple road. */
  ghost function IntendedEntries(g: Grid, players: seq<Player>): (r: seq<Entry>)
    ensures |r| == |players|
    ensures forall k | 0 <= k < |r| ::
      r[k] == Entry(players[k], Some(SimplePaths.LongestRoad(SetPath.RoadsForPlayer(g, players[k]))))
  {
    if players == [] then []
    else
      var pl := players[0];
      [Entry(pl, Some(SimplePaths.LongestRoad(SetPath.RoadsForPlayer(g, pl))))]
        + IntendedEntries(g, players[1..])
  }

  /**
   * The scoring the program evidently intends: the winner owns a simple road
   * of `best` cells, no listed player owns a longer one, and there is no
   * winner exactly when no player has a road cell.
   */
  ghost function IntendedMain(g: Grid): (r: Standing)
    ensures r.winner.None? <==> forall k | k in g :: !g[k].Path?
    ensures r.winner.Some? ==> r.winner.value in Players(g)
    ensures r.winner.Some? ==> exists p :: SimplePaths.IsSimplePath(SetPath.RoadsForPlayer(g, r.winner.value), p) && |p| == r.best
    ensures forall pl, p | pl in Players(g) && SimplePaths.IsSimplePath(SetPath.RoadsForPlayer(g, pl), p) :: |p| <= r.best
  {
    var players := Players(g);
    var entries := IntendedEntries(g, players);
    var r := Winner(entries);
    IntendedNoWinner(g, players, entries, r);
    IntendedWinnerRoad(g, players, entries, r);
    IntendedNoLonger(g, players, entries, r);
    r
  }

  lemma IntendedNoWinner(g: Grid, players: seq<Player>, entries: seq<Entry>, r: Standing)
    requires players == Players(g) && entries == IntendedEntries(g, players) && r == Winner(entries)
    ensures r.winner.None? <==> forall k | k in g :: !g[k].Path?
  {
    if exists k | k in g :: g[k].Path? {
      var k :| k in g && g[k].Path?;
      RoadCellScores(g, players, entries, k);
    }
    if r.winner.Some? {
      WinnerOwnsRoadCell(g, players, entries, r);
    }
  }

  /** A road cell gives its owner a positive score, so somebody wins. */
  lemma RoadCellScores(g: Grid, players: seq<Player>, entries: seq<Entry>, k: Pos)
    requires players == Players(g) && entries == IntendedEntries(g, players)
    requires k in g && g[k].Path?
    ensures Winner(entries).winner.Some?
  {
    var pl := g[k].owner;
    assert Owner(g[k]) == Some(pl);
    assert pl in players;
    var i :| 0 <= i < |players| && players[i] == pl;
    var roads := SetPath.RoadsForPlayer(g, pl);
    assert k in roads;
    var n := SimplePaths.LongestRoad(roads);
    assert n != 0;
    assert entries[i] == Entry(pl, Some(n));
    assert Score(entries[i]) != 0;
  }

  /** The winner's road subgraph is not empty. */
  lemma WinnerOwnsRoadCell(g: Grid, players: seq<Player>, entries: seq<Entry>, r: Standing)
    requires entries == IntendedEntries(g, players) && r == Winner(entries)
    requires r.winner.Some?
    ensures exists k | k in g :: g[k].Path?
  {
    var i :| FirstBestAt(entries, r.best, i) && entries[i].player == r.winner.value;
    var roads := SetPath.RoadsForPlayer(g, players[i]);
    assert Score(entries[i]) == SimplePaths.LongestRoad(roads);
    assert roads != {};
    var k :| k in roads;
    assert g[k].Path?;
  }

  lemma IntendedWinnerRoad(g: Grid, players: seq<Player>, entries: seq<Entry>, r: Standing)
    requires entries == IntendedEntries(g, players) && r == Winner(entries)
    ensures r.winner.Some? ==> r.winner.value in players
    ensures r.winner.Some? ==> exists p :: SimplePaths.IsSimplePath(SetPath.RoadsForPlayer(g, r.winner.value), p) && |p| == r.best
  {
    if r.winner.Some? {
      var i :| FirstBestAt(entries, r.best, i) && entries[i].player == r.winner.value;
      var roads := SetPath.RoadsForPlayer(g, players[i]);
      assert entries[i] == Entry(players[i], Some(SimplePaths.LongestRoad(roads)));
      assert roads != {};
      var p :| SimplePaths.IsSimplePath(roads, p) && |p| == SimplePaths.LongestRoad(roads);
    }
  }

  lemma IntendedNoLonger(g: Grid, players: seq<Player>, entries: seq<Entry>, r: Standing)
    requires entries == IntendedEntries(g, players) && r == Winner(entries)
    ensures forall pl, p | pl in players && SimplePaths.IsSimplePath(SetPath.RoadsForPlayer(g, pl), p) :: |p| <= r.best
  {
    forall pl, p | pl in players && SimplePaths.IsSimplePath(SetPath.RoadsForPlayer(g, pl), p)
      ensures |p| <= r.best
    {
      var i :| 0 <= i < |players| && players[i] == pl;
      EntryBound(g, players, entries, r, i, p);
    }
  }

  /** A simple road of the `i`-th player is no longer than their score, hence than the best. */
  lemma EntryBound(g: Grid, players: seq<Player>, entries: seq<Entry>, r: Standing, i: nat, p: seq<Pos>)
    requires entries == IntendedEntries(g, players) && r == Winner(entries)
    requires i < |players| && SimplePaths.IsSimplePath(SetPath.RoadsForPlayer(g, players[i]), p)
    ensures |p| <= r.best
  {
    var roads := SetPath.RoadsForPlayer(g, players[i]);
    assert entries[i] == Entry(players[i], Some(SimplePaths.LongestRoad(roads)));
    assert |p| <= SimplePaths.LongestRoad(roads);
    assert Score(entries[i]) <= r.best;
  }
}
