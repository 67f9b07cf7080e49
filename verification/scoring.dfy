/**
 The leaderboard computation of `GET /leaderboard`, stopped at the sorted
 `(team, points)` list the page is rendered from. Points are kept in
 quarter-points: the first finder's 1.25 multiplier makes the source's points
 multiples of 0.25, so `q` quarter-points stand for `q / 4` points exactly.
 */
module Scoring {
  import opened Ledger
  import Rounding
  import StableSort
  import Seqs

  /** One leaderboard line; `points` is in quarter-points. */
  datatype Row = Row(team: string, points: int)

  /** Sort key of the store's `sort("timestamp", 1)`. */
  function TimeKey(e: Entry): int {
    e.timestamp
  }

  /** Sort key of `sorted(..., key=lambda x: x[1], reverse=True)`: ascending in minus the points. */
  function RankKey(r: Row): int {
    -r.points
  }

  function RowTeam(r: Row): string {
    r.team
  }

  /** Whole points of every check-in at a station visited by n teams: `20 + round(120 / n)`. */
  function BasePoints(n: nat): (p: nat)
    requires n > 0
    ensures 20 <= p <= 140
  {
    20 + Rounding.Bonus(n)
  }

  /** A station's documents as the store returns them: ordered by timestamp, ties in insertion order. */
  function ByTime(es: seq<Entry>): (sorted: seq<Entry>)
    ensures multiset(sorted) == multiset(es)
    ensures StableSort.SortedBy(sorted, TimeKey)
  {
    StableSort.SortBySorted(es, TimeKey);
    StableSort.SortBy(es, TimeKey)
  }

  /** The document with the earliest timestamp, the first of them if several share it. */
  function FirstFinder(es: seq<Entry>): (e: Entry)
    requires |es| > 0
    ensures e in es
    ensures forall i :: 0 <= i < |es| ==> e.timestamp <= es[i].timestamp
  {
    es[StableSort.FirstMin(es, TimeKey)]
  }

  /**
   Quarter-points for the documents `sorted`, in order, at a station whose
   base is `b` whole points; `first` marks that `sorted[0]` is at index 0 and
   earns the 25% extra.
   */
  function Awards(sorted: seq<Entry>, b: nat, first: bool): (aw: seq<Row>)
    ensures |aw| == |sorted|
    ensures forall i :: 0 <= i < |aw| ==> aw[i].team == sorted[i].team
    ensures forall i :: 0 <= i < |aw| ==> aw[i].points == (if first && i == 0 then 5 else 4) * b
  {
    if sorted == [] then []
    else [Row(sorted[0].team, (if first then 5 else 4) * b)] + Awards(sorted[1..], b, false)
  }

  /** What one station hands out (dietro.py:79-97); an empty collection hands out nothing. */
  function StationAwards(es: seq<Entry>): (aw: seq<Row>)
    ensures |aw| == |es|
  {
    if |es| == 0 then [] else Awards(ByTime(es), BasePoints(|es|), true)
  }

  /** Teams of a board or of a list of awards, in order. */
  function Teams(rows: seq<Row>): (ts: seq<string>)
    ensures |ts| == |rows|
    ensures forall i :: 0 <= i < |rows| ==> ts[i] == rows[i].team
  {
    if rows == [] then [] else [rows[0].team] + Teams(rows[1..])
  }

  /** `leaderboard[team]`, with 0 for a team that has no line. */
  function Points(board: seq<Row>, team: string): int {
    if board == [] then 0
    else if board[0].team == team then board[0].points
    else Points(board[1..], team)
  }

  /** Sum of the points the rows give to `team`. */
  function RowSum(rows: seq<Row>, team: string): int {
    if rows == [] then 0
    else (if rows[0].team == team then rows[0].points else 0) + RowSum(rows[1..], team)
  }

  /** Sum of all the points of the rows. */
  function TotalPoints(rows: seq<Row>): int {
    if rows == [] then 0 else rows[0].points + TotalPoints(rows[1..])
  }

  /**
   `if team not in leaderboard: leaderboard[team] = 0` then
   `leaderboard[team] += pts`. A dict keeps insertion order, so a new team goes
   last and an existing one keeps its place.
   */
  function Credit(board: seq<Row>, team: string, pts: int): (b: seq<Row>)
    ensures Teams(b) == if team in Teams(board) then Teams(board) else Teams(board) + [team]
    ensures forall t :: Points(b, t) == Points(board, t) + (if t == team then pts else 0)
  {
    if board == [] then [Row(team, pts)]
    else if board[0].team == team then [Row(team, board[0].points + pts)] + board[1..]
    else
      var rest := Credit(board[1..], team, pts);
      assert Teams([board[0]] + rest) == [board[0].team] + Teams(rest);
      [board[0]] + rest
  }

  /**
   Crediting every award of a station in turn (the inner loop, dietro.py:85-97):
   each team's points grow by the sum of its awards, and the teams with a line
   are the old ones and those awarded.
   */
  function CreditAll(board: seq<Row>, awards: seq<Row>): (b: seq<Row>)
    ensures forall t :: Points(b, t) == Points(board, t) + RowSum(awards, t)
    ensures forall t :: t in Teams(b) <==> t in Teams(board) || t in Teams(awards)
    decreases |awards|
  {
    if awards == [] then board
    else
      var a := awards[0];
      assert Teams(awards) == [a.team] + Teams(awards[1..]);
      CreditAll(Credit(board, a.team, a.points), awards[1..])
  }

  /**
   The outer loop over `list_collection_names()`, in the order `order` lists
   them: each team's points grow by its reference total over the listed
   stations, and the teams with a line are the old ones and those with a
   document at a listed station.
   */
  function Tally(ledger: Ledger, order: seq<string>, board: seq<Row>): (b: seq<Row>)
    ensures forall t :: Points(b, t) == Points(board, t) + TeamTotal(ledger, order, t)
    ensures forall t :: (t in Teams(b)
      <==> t in Teams(board) || exists i :: 0 <= i < |order| && HasTeam(EntriesAt(ledger, order[i]), t))
    decreases |order|
  {
    if order == [] then board
    else
      var es := EntriesAt(ledger, order[0]);
      StationAwardsAll(es);
      FoundAtSplitAll(ledger, order);
      Tally(ledger, order[1..], CreditAll(board, StationAwards(es)))
  }

  /**
   The leaderboard: per-team totals in first-seen order, then stably sorted by
   points, highest first, so teams with equal totals keep the order in which
   the loops first met them. `order` is the order the store lists the
   collections in: every collection once.
   */
  function Leaderboard(ledger: Ledger, order: seq<string>): (rows: seq<Row>)
    requires multiset(order) == multiset(ledger.Keys)
    ensures forall i, j :: 0 <= i < j < |rows| ==> rows[i].points >= rows[j].points
    ensures multiset(rows) == multiset(Tally(ledger, order, []))
    ensures forall k :: StableSort.WithKey(rows, RankKey, k) == StableSort.WithKey(Tally(ledger, order, []), RankKey, k)
  {
    var board := Tally(ledger, order, []);
    StableSort.SortBySorted(board, RankKey);
    StableSort.SortByStableAll(board, RankKey);
    RankedByPoints(StableSort.SortBy(board, RankKey));
    StableSort.SortBy(board, RankKey)
  }

  // ---------------------------------------------------------------------------
  // Reference definitions, stated without the scoring loops.

  /**
   What a station's documents are worth to `team`, in quarter-points: 4 per
   document of the team times the base, plus one more base when the team is
   the first finder. Nothing for an empty collection.
   */
  function StationScore(es: seq<Entry>, team: string): int {
    if |es| == 0 then 0
    else Share(BasePoints(|es|), TeamCount(es, team), FirstFinder(es).team == team)
  }

  /** Quarter-points for `count` documents at a station of base `b`, one more base for the first finder. */
  function Share(b: int, count: int, first: bool): int {
    b * (4 * count + (if first then 1 else 0))
  }

  /** A team's total over the stations `order` lists. */
  function TeamTotal(ledger: Ledger, order: seq<string>, team: string): int
    decreases |order|
  {
    if order == [] then 0
    else StationScore(EntriesAt(ledger, order[0]), team) + TeamTotal(ledger, order[1..], team)
  }

  /** The team has a document at some station. */
  ghost predicate Visited(ledger: Ledger, team: string) {
    exists s :: s in ledger && HasTeam(ledger[s].entries, team)
  }

  /** No team has two lines. */
  ghost predicate DistinctTeams(rows: seq<Row>) {
    Seqs.DistinctBy(rows, RowTeam)
  }

  // ---------------------------------------------------------------------------
  // One station.

  lemma {:induction false} AwardsRowSum(sorted: seq<Entry>, b: nat, team: string)
    ensures RowSum(Awards(sorted, b, false), team) == 4 * b * TeamCount(sorted, team)
  {
    if sorted != [] {
      var aw := Awards(sorted, b, false);
      assert aw[1..] == Awards(sorted[1..], b, false);
      AwardsRowSum(sorted[1..], b, team);
      var c := TeamCount(sorted[1..], team);
      assert 4 * b * (c + 1) == 4 * b + 4 * b * c;
    }
  }

  lemma AwardsFirstRowSum(sorted: seq<Entry>, b: nat, team: string)
    requires |sorted| > 0
    ensures RowSum(Awards(sorted, b, true), team)
      == (if sorted[0].team == team then 5 * b else 0) + 4 * b * TeamCount(sorted[1..], team)
  {
    var aw := Awards(sorted, b, true);
    assert aw[1..] == Awards(sorted[1..], b, false);
    AwardsRowSum(sorted[1..], b, team);
  }

  lemma ShareSplit(b: int, c: int, first: bool)
    ensures Share(b, c + (if first then 1 else 0), first) == (if first then 5 * b else 0) + 4 * b * c
  {
  }

  lemma TotalArith(b: int, n: int)
    ensures 5 * b + 4 * b * (n - 1) == (4 * n + 1) * b
  {
  }

  /** The first document of the time-sorted collection is the first finder's. */
  lemma ByTimeHead(es: seq<Entry>)
    requires |es| > 0
    ensures ByTime(es)[0] == FirstFinder(es)
  {
    StableSort.SortByHead(es, TimeKey, StableSort.FirstMin(es, TimeKey));
  }

  /** A station's awards to a team, in terms of the time-sorted documents. */
  lemma {:induction false} StationAwardsSum(es: seq<Entry>, team: string, sorted: seq<Entry>)
    requires |es| > 0 && sorted == ByTime(es)
    ensures RowSum(StationAwards(es), team) == Share(BasePoints(|es|), TeamCount(sorted, team), sorted[0].team == team)
  {
    var n := |es|;
    var first := sorted[0].team == team;
    var c := TeamCount(sorted[1..], team);
    assert TeamCount(sorted, team) == c + (if first then 1 else 0);
    var b := BasePoints(n);
    assert StationAwards(es) == Awards(sorted, b, true);
    AwardsFirstRowSum(sorted, b, team);
    ShareSplit(b, c, first);
  }

  /** The reference score of a station, in terms of the time-sorted documents. */
  lemma {:induction false} StationScoreSorted(es: seq<Entry>, team: string, sorted: seq<Entry>)
    requires |es| > 0 && sorted == ByTime(es)
    ensures StationScore(es, team) == Share(BasePoints(|es|), TeamCount(sorted, team), sorted[0].team == team)
  {
    ByTimeHead(es);
    TeamCountPermutation(sorted, es, team);
  }

  /** What the station's awards give a team is its reference score at that station. */
  lemma {:induction false} StationAwardsScore(es: seq<Entry>, team: string)
    ensures RowSum(StationAwards(es), team) == StationScore(es, team)
  {
    if |es| > 0 {
      StationAwardsSum(es, team, ByTime(es));
      StationScoreSorted(es, team, ByTime(es));
    }
  }

  lemma {:induction false} AwardsTotal(sorted: seq<Entry>, b: nat)
    ensures TotalPoints(Awards(sorted, b, false)) == 4 * b * |sorted|
  {
    if sorted != [] {
      var aw := Awards(sorted, b, false);
      assert aw[1..] == Awards(sorted[1..], b, false);
      AwardsTotal(sorted[1..], b);
      assert 4 * b * |sorted| == 4 * b + 4 * b * (|sorted| - 1);
    }
  }

  lemma AwardsFirstTotal(sorted: seq<Entry>, b: nat)
    requires |sorted| > 0
    ensures TotalPoints(Awards(sorted, b, true)) == 5 * b + 4 * b * (|sorted| - 1)
  {
    var aw := Awards(sorted, b, true);
    assert aw[1..] == Awards(sorted[1..], b, false);
    AwardsTotal(sorted[1..], b);
  }

  /**
   A station with n >= 1 documents hands out (n + 0.25) times its base in all:
   (4n + 1) base in quarter-points.
   */
  lemma {:induction false} StationAwardsTotal(es: seq<Entry>)
    requires |es| > 0
    ensures TotalPoints(StationAwards(es)) == (4 * |es| + 1) * BasePoints(|es|)
  {
    var n := |es|;
    var b := BasePoints(n);
    assert StationAwards(es) == Awards(ByTime(es), b, true);
    AwardsFirstTotal(ByTime(es), b);
    TotalArith(b, n);
  }

  lemma {:induction false} AwardsTeams(sorted: seq<Entry>, b: nat, first: bool, team: string)
    ensures team in Teams(Awards(sorted, b, first)) <==> HasTeam(sorted, team)
  {
    var aw := Awards(sorted, b, first);
    var ts := Teams(aw);
    if team in ts {
      var i :| 0 <= i < |ts| && ts[i] == team;
      assert ts[i] == aw[i].team == sorted[i].team;
    }
    if HasTeam(sorted, team) {
      var i :| 0 <= i < |sorted| && sorted[i].team == team;
      assert ts[i] == aw[i].team == team;
    }
  }

  /** A team gets an award at a station exactly when it has a document there. */
  lemma {:induction false} StationAwardsTeams(es: seq<Entry>, team: string)
    ensures team in Teams(StationAwards(es)) <==> HasTeam(es, team)
  {
    if |es| > 0 {
      var sorted := ByTime(es);
      AwardsTeams(sorted, BasePoints(|es|), true, team);
      TeamCountPermutation(sorted, es, team);
      TeamCountPositive(sorted, team);
      TeamCountPositive(es, team);
    }
  }

  // ---------------------------------------------------------------------------
  // Accumulation.

  /** Crediting keeps one line per team. */
  lemma CreditDistinct(board: seq<Row>, team: string, pts: int)
    requires DistinctTeams(board)
    ensures DistinctTeams(Credit(board, team, pts))
  {
    var b := Credit(board, team, pts);
    var ts, old_ts := Teams(b), Teams(board);
    forall i, j | 0 <= i < j < |b|
      ensures b[i].team != b[j].team
    {
      assert b[i].team == ts[i] && b[j].team == ts[j];
      if j < |board| {
        assert ts[i] == old_ts[i] == board[i].team;
        assert ts[j] == old_ts[j] == board[j].team;
      } else {
        assert ts[i] == old_ts[i];
        assert old_ts[i] in old_ts;
      }
    }
  }

  /** Crediting a station's awards keeps one line per team. */
  lemma {:induction false} CreditAllDistinct(board: seq<Row>, awards: seq<Row>)
    requires DistinctTeams(board)
    ensures DistinctTeams(CreditAll(board, awards))
    decreases |awards|
  {
    if awards != [] {
      CreditDistinct(board, awards[0].team, awards[0].points);
      CreditAllDistinct(Credit(board, awards[0].team, awards[0].points), awards[1..]);
    }
  }

  /** What a station contributes, for every team at once: its reference score, and an award exactly for a document. */
  lemma StationAwardsAll(es: seq<Entry>)
    ensures forall t :: RowSum(StationAwards(es), t) == StationScore(es, t)
    ensures forall t :: t in Teams(StationAwards(es)) <==> HasTeam(es, t)
  {
    forall t
      ensures RowSum(StationAwards(es), t) == StationScore(es, t)
      ensures t in Teams(StationAwards(es)) <==> HasTeam(es, t)
    {
      StationAwardsScore(es, t);
      StationAwardsTeams(es, t);
    }
  }

  /** Running the outer loop keeps one line per team. */
  lemma {:induction false} TallyDistinct(ledger: Ledger, order: seq<string>, board: seq<Row>)
    requires DistinctTeams(board)
    ensures DistinctTeams(Tally(ledger, order, board))
    decreases |order|
  {
    if order != [] {
      var aw := StationAwards(EntriesAt(ledger, order[0]));
      CreditAllDistinct(board, aw);
      TallyDistinct(ledger, order[1..], CreditAll(board, aw));
    }
  }

  /** A team has a document at some listed station exactly when it has one at the first or at a later one. */
  lemma FoundAtSplit(ledger: Ledger, order: seq<string>, t: string)
    requires order != []
    ensures (exists i :: 0 <= i < |order| && HasTeam(EntriesAt(ledger, order[i]), t))
      <==> (HasTeam(EntriesAt(ledger, order[0]), t)
            || exists i :: 0 <= i < |order[1..]| && HasTeam(EntriesAt(ledger, order[1..][i]), t))
  {
    if exists i :: 0 <= i < |order| && HasTeam(EntriesAt(ledger, order[i]), t) {
      var i :| 0 <= i < |order| && HasTeam(EntriesAt(ledger, order[i]), t);
      if i > 0 {
        assert order[1..][i - 1] == order[i];
      }
    }
    if exists i :: 0 <= i < |order[1..]| && HasTeam(EntriesAt(ledger, order[1..][i]), t) {
      var i :| 0 <= i < |order[1..]| && HasTeam(EntriesAt(ledger, order[1..][i]), t);
      assert order[i + 1] == order[1..][i];
    }
  }

  /** `FoundAtSplit` for every team at once. */
  lemma FoundAtSplitAll(ledger: Ledger, order: seq<string>)
    requires order != []
    ensures forall t :: ((exists i :: 0 <= i < |order| && HasTeam(EntriesAt(ledger, order[i]), t))
      <==> (HasTeam(EntriesAt(ledger, order[0]), t)
            || exists i :: 0 <= i < |order[1..]| && HasTeam(EntriesAt(ledger, order[1..][i]), t)))
  {
    forall t
      ensures (exists i :: 0 <= i < |order| && HasTeam(EntriesAt(ledger, order[i]), t))
        <==> (HasTeam(EntriesAt(ledger, order[0]), t)
              || exists i :: 0 <= i < |order[1..]| && HasTeam(EntriesAt(ledger, order[1..][i]), t))
    {
      FoundAtSplit(ledger, order, t);
    }
  }

  /** On a board with one line per team, a line's points are what `Points` reads for its team. */
  lemma {:induction false} PointsOfLine(board: seq<Row>, i: nat)
    requires DistinctTeams(board)
    requires i < |board|
    ensures Points(board, board[i].team) == board[i].points
  {
    if i > 0 {
      assert board[0].team != board[i].team;
      assert board[1..][i - 1] == board[i];
      PointsOfLine(board[1..], i - 1);
    }
  }

  // ---------------------------------------------------------------------------
  // The station order does not matter for the totals.

  /** A station's term in a team's total: the team's score there. */
  function ScoreAt(ledger: Ledger, team: string): string -> int {
    s => StationScore(EntriesAt(ledger, s), team)
  }

  /** The total is the sum of the station scores. */
  lemma {:induction false} TeamTotalSum(ledger: Ledger, order: seq<string>, team: string)
    ensures TeamTotal(ledger, order, team) == Seqs.Sum(order, ScoreAt(ledger, team))
    decreases |order|
  {
    if order != [] {
      TeamTotalSum(ledger, order[1..], team);
    }
  }

  lemma TeamTotalConcat(ledger: Ledger, a: seq<string>, b: seq<string>, team: string)
    ensures TeamTotal(ledger, a + b, team) == TeamTotal(ledger, a, team) + TeamTotal(ledger, b, team)
  {
    TeamTotalSum(ledger, a + b, team);
    TeamTotalSum(ledger, a, team);
    TeamTotalSum(ledger, b, team);
    Seqs.SumConcat(a, b, ScoreAt(ledger, team));
  }

  /**
   A team's total does not depend on the order the stations are listed in, so
   it is the sum of its station scores over the set of stations.
   */
  lemma TeamTotalPermutation(ledger: Ledger, a: seq<string>, b: seq<string>, team: string)
    requires multiset(a) == multiset(b)
    ensures TeamTotal(ledger, a, team) == TeamTotal(ledger, b, team)
  {
    TeamTotalSum(ledger, a, team);
    TeamTotalSum(ledger, b, team);
    Seqs.SumPermutation(a, b, ScoreAt(ledger, team));
  }

  // ---------------------------------------------------------------------------
  // The leaderboard.

  /** Listing every collection once visits every station of the ledger. */
  lemma OrderCoversLedger(ledger: Ledger, order: seq<string>, team: string)
    requires multiset(order) == multiset(ledger.Keys)
    ensures (exists i :: 0 <= i < |order| && HasTeam(EntriesAt(ledger, order[i]), team)) <==> Visited(ledger, team)
  {
    if exists i :: 0 <= i < |order| && HasTeam(EntriesAt(ledger, order[i]), team) {
      var i :| 0 <= i < |order| && HasTeam(EntriesAt(ledger, order[i]), team);
      assert order[i] in multiset(order);
      assert order[i] in ledger;
    }
    if Visited(ledger, team) {
      var s :| s in ledger && HasTeam(ledger[s].entries, team);
      assert s in multiset(ledger.Keys);
      assert s in multiset(order);
      var i :| 0 <= i < |order| && order[i] == s;
      assert HasTeam(EntriesAt(ledger, order[i]), team);
    }
  }

  /** Ordered by the rank key is ordered by points, highest first. */
  lemma RankedByPoints(rows: seq<Row>)
    requires StableSort.SortedBy(rows, RankKey)
    ensures forall i, j :: 0 <= i < j < |rows| ==> rows[i].points >= rows[j].points
  {
    forall i, j | 0 <= i < j < |rows|
      ensures rows[i].points >= rows[j].points
    {
      assert RankKey(rows[i]) <= RankKey(rows[j]);
    }
  }

  /** Each team has at most one line on the leaderboard. */
  lemma LeaderboardDistinct(ledger: Ledger, order: seq<string>)
    requires multiset(order) == multiset(ledger.Keys)
    ensures DistinctTeams(Leaderboard(ledger, order))
  {
    var board := Tally(ledger, order, []);
    TallyDistinct(ledger, order, []);
    StableSort.SortByDistinct(board, RankKey, RowTeam);
  }

  lemma TeamsInPermutation(a: seq<Row>, b: seq<Row>, team: string)
    requires multiset(a) == multiset(b)
    requires team in Teams(a)
    ensures team in Teams(b)
  {
    var i :| 0 <= i < |a| && Teams(a)[i] == team;
    assert a[i] in multiset(b);
    var j :| 0 <= j < |b| && b[j] == a[i];
    assert Teams(b)[j] == team;
  }

  /** The leaderboard lists exactly the teams that have a document at some station. */
  lemma LeaderboardTeams(ledger: Ledger, order: seq<string>, team: string)
    requires multiset(order) == multiset(ledger.Keys)
    ensures team in Teams(Leaderboard(ledger, order)) <==> Visited(ledger, team)
  {
    var board := Tally(ledger, order, []);
    var rows := Leaderboard(ledger, order);
    TallyDistinct(ledger, order, []);
    OrderCoversLedger(ledger, order, team);
    if team in Teams(rows) {
      TeamsInPermutation(rows, board, team);
    }
    if team in Teams(board) {
      TeamsInPermutation(board, rows, team);
    }
  }

  /** Each line carries its team's total over all stations. */
  lemma LeaderboardTotals(ledger: Ledger, order: seq<string>)
    requires multiset(order) == multiset(ledger.Keys)
    ensures var rows := Leaderboard(ledger, order);
      forall i :: 0 <= i < |rows| ==> rows[i].points == TeamTotal(ledger, order, rows[i].team)
  {
    var board := Tally(ledger, order, []);
    var rows := Leaderboard(ledger, order);
    TallyDistinct(ledger, order, []);
    forall i | 0 <= i < |rows|
      ensures rows[i].points == TeamTotal(ledger, order, rows[i].team)
    {
      assert rows[i] in multiset(board);
      var j :| 0 <= j < |board| && board[j] == rows[i];
      PointsOfLine(board, j);
    }
  }

  /** The per-team totals do not depend on the order the store lists the collections in. */
  lemma {:induction false} LeaderboardTotalsOrderFree(ledger: Ledger, order1: seq<string>, order2: seq<string>, team: string)
    requires multiset(order1) == multiset(ledger.Keys)
    requires multiset(order2) == multiset(ledger.Keys)
    ensures Points(Tally(ledger, order1, []), team) == Points(Tally(ledger, order2, []), team)
  {
    TallyDistinct(ledger, order1, []);
    TallyDistinct(ledger, order2, []);
    TeamTotalPermutation(ledger, order1, order2, team);
  }

  /** A ledger without documents gives an empty leaderboard, whatever collections exist. */
  lemma EmptyLeaderboard(ledger: Ledger, order: seq<string>)
    requires multiset(order) == multiset(ledger.Keys)
    requires forall s :: s in ledger ==> ledger[s].entries == []
    ensures Leaderboard(ledger, order) == []
  {
    var rows := Leaderboard(ledger, order);
    if rows != [] {
      LeaderboardTeams(ledger, order, rows[0].team);
      assert false;
    }
  }

  // ---------------------------------------------------------------------------
  // A worked example: one station found by three teams a, b and c, inserted
  // out of timestamp order (b at 20, a at 10, c at 30).

  lemma ExampleByTime(es: seq<Entry>, a: string, b: string, c: string)
    requires es == [Entry(b, 20), Entry(a, 10), Entry(c, 30)]
    ensures ByTime(es) == [es[1], es[0], es[2]]
  {
    assert es[1..][1..] == es[2..] && es[2..][1..] == [];
    assert StableSort.SortBy(es[2..], TimeKey) == [es[2]];
    assert StableSort.Insert(es[1], [es[2]], TimeKey) == [es[1], es[2]];
    assert StableSort.SortBy(es[1..], TimeKey) == [es[1], es[2]];
    assert StableSort.Insert(es[0], [es[2]], TimeKey) == [es[0], es[2]];
    assert StableSort.Insert(es[0], [es[1], es[2]], TimeKey) == [es[1], es[0], es[2]];
  }

  lemma ExampleBase()
    ensures BasePoints(3) == 60
  {
    Rounding.RoundHalfEvenUnique(120, 3, 40);
  }

  lemma ExampleAwardRows(x: Entry, y: Entry, z: Entry)
    ensures Awards([x, y, z], 60, true) == [Row(x.team, 300), Row(y.team, 240), Row(z.team, 240)]
  {
    assert Awards([z], 60, false) == [Row(z.team, 240)];
    assert [y, z][1..] == [z];
    assert Awards([y, z], 60, false) == [Row(y.team, 240), Row(z.team, 240)];
    assert [x, y, z][1..] == [y, z];
  }

  lemma {:induction false} ExampleAwards(es: seq<Entry>, a: string, b: string, c: string)
    requires es == [Entry(b, 20), Entry(a, 10), Entry(c, 30)]
    ensures StationAwards(es) == [Row(a, 300), Row(b, 240), Row(c, 240)]
  {
    ExampleByTime(es, a, b, c);
    ExampleBase();
    ExampleAwardRows(es[1], es[0], es[2]);
  }

  lemma ExampleCredits(a: string, b: string, c: string)
    requires a != b && b != c && a != c
    ensures CreditAll([], [Row(a, 300), Row(b, 240), Row(c, 240)]) == [Row(a, 300), Row(b, 240), Row(c, 240)]
  {
    var rows := [Row(a, 300), Row(b, 240), Row(c, 240)];
    assert Credit([], a, 300) == rows[..1];
    assert Credit(rows[..1], b, 240) == rows[..2];
    assert rows[..2][1..] == [rows[1]] && [rows[1]][1..] == [];
    assert Credit([rows[1]], c, 240) == rows[1..];
    assert Credit(rows[..2], c, 240) == rows;
    assert CreditAll(rows[..2], rows[2..]) == rows;
    assert CreditAll(rows[..1], rows[1..]) == CreditAll(rows[..2], rows[2..]);
    assert CreditAll([], rows) == CreditAll(rows[..1], rows[1..]);
  }

  lemma ExampleRanking(a: string, b: string, c: string)
    ensures StableSort.SortBy([Row(a, 300), Row(b, 240), Row(c, 240)], RankKey) == [Row(a, 300), Row(b, 240), Row(c, 240)]
  {
    var rows := [Row(a, 300), Row(b, 240), Row(c, 240)];
    assert StableSort.SortBy(rows[2..], RankKey) == rows[2..];
    assert StableSort.SortBy(rows[1..], RankKey) == rows[1..];
  }

  /** Tallying a single station credits that station's awards. */
  lemma TallyOne(ledger: Ledger, station: string, board: seq<Row>)
    ensures Tally(ledger, [station], board) == CreditAll(board, StationAwards(EntriesAt(ledger, station)))
  {
    assert [station][1..] == [];
  }

  lemma {:induction false} ExampleTally(station: string, es: seq<Entry>, a: string, b: string, c: string)
    requires a != b && b != c && a != c
    requires es == [Entry(b, 20), Entry(a, 10), Entry(c, 30)]
    ensures Tally(map[station := Collection(es, true)], [station], []) == [Row(a, 300), Row(b, 240), Row(c, 240)]
  {
    var ledger := map[station := Collection(es, true)];
    TallyOne(ledger, station, []);
    assert EntriesAt(ledger, station) == es;
    ExampleAwards(es, a, b, c);
    ExampleCredits(a, b, c);
  }

  /**
   The worked example: a (earliest) earns 1.25 * 60 = 75 points, b and c 60
   each, and the two tied teams keep the order in which the station's
   time-sorted documents listed them.
   */
  lemma {:induction false} ThreeTeamExample(station: string, a: string, b: string, c: string)
    requires a != b && b != c && a != c
    ensures var ledger := map[station := Collection([Entry(b, 20), Entry(a, 10), Entry(c, 30)], true)];
            Leaderboard(ledger, [station]) == [Row(a, 300), Row(b, 240), Row(c, 240)]
  {
    var es := [Entry(b, 20), Entry(a, 10), Entry(c, 30)];
    var ledger := map[station := Collection(es, true)];
    var rows := [Row(a, 300), Row(b, 240), Row(c, 240)];
    assert multiset([station]) == multiset(ledger.Keys);
    ExampleTally(station, es, a, b, c);
    ExampleRanking(a, b, c);
  }
}
