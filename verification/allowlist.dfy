/**
 The two static allow-lists a check-in is validated against: the fourteen
 station codes and the team names `team1` ... `team99`.
 */
module AllowList {
  import Decimal

  /** The station codes printed on the clue QR codes, plus two named stations. */
  const AllowedStations: seq<string> := [
    "clue1-7K9P2L5N6Q3W",
    "clue2-R4T9YU2I6O1S",
    "clue3-F9G3HJ7K2LZ4",
    "clue4-X8CV6B1NM3Q9",
    "clue5-W5E1R3Y7U2I9",
    "clue6-O4P8AS1D7FG5",
    "clue7-H9JK3L1ZX7C2",
    "clue8-V9N4MQ2W8ER6",
    "clue9-T1YU5I9OP3S7",
    "clue10-D8G2HJ4K6LZ1",
    "clue11-X9CV5B3NM2Q8",
    "clue12-W7R4TY9U1IO3",
    "Teo",
    "Alex"
  ]

  const TeamPrefix: string := "team"

  /** `[f"team{i}" for i in range(lo, hi)]`. */
  function TeamRange(lo: nat, hi: nat): (ts: seq<string>)
    ensures |ts| == if lo <= hi then hi - lo else 0
    decreases hi - lo
  {
    if lo >= hi then [] else [TeamPrefix + Decimal.Show(lo)] + TeamRange(lo + 1, hi)
  }

  /** The i-th name of `range(lo, hi)` is the one numbered lo + i. */
  lemma {:induction false} TeamRangeAt(lo: nat, hi: nat, i: nat)
    requires lo + i < hi
    ensures TeamRange(lo, hi)[i] == TeamPrefix + Decimal.Show(lo + i)
    decreases hi - lo
  {
    if i > 0 {
      TeamRangeAt(lo + 1, hi, i - 1);
    }
  }

  /** The team allow-list: `range(1, 100)` stops before 100, so the last team is `team99`. */
  const AllowedTeams: seq<string> := TeamRange(FirstTeam, EndTeam)

  /** The bounds of `range(1, 100)`. */
  const FirstTeam: nat := 1
  const EndTeam: nat := 100

  /** Shape of an allowed team name, stated without the list: "team" followed by the canonical spelling of 1..99. */
  predicate IsTeamName(t: string) {
    && |t| > |TeamPrefix|
    && t[..|TeamPrefix|] == TeamPrefix
    && Decimal.IsCanonical(t[|TeamPrefix|..])
    && 1 <= Decimal.Value(t[|TeamPrefix|..]) <= 99
  }

  /** The i-th team of the list is the one numbered i + 1. */
  lemma TeamAt(i: nat)
    requires i < 99
    ensures AllowedTeams[i] == TeamPrefix + Decimal.Show(i + 1)
    ensures |AllowedTeams| == 99
  {
    TeamRangeAt(FirstTeam, EndTeam, i);
  }

  /** Every name of the generated list has the shape "team<n>", n canonical and within 1..99. */
  lemma {:induction false} AllowedIsTeamName(t: string)
    requires t in AllowedTeams
    ensures IsTeamName(t)
  {
    var k := |TeamPrefix|;
    var i :| 0 <= i < |AllowedTeams| && AllowedTeams[i] == t;
    TeamAt(i);
    var digits := Decimal.Show(i + 1);
    assert t == TeamPrefix + digits;
    assert t[..k] == TeamPrefix && t[k..] == digits;
    Decimal.ValueOfShow(i + 1);
  }

  /** Every name of the shape "team<n>", n canonical and within 1..99, is in the generated list. */
  lemma {:induction false} TeamNameIsAllowed(t: string)
    requires IsTeamName(t)
    ensures t in AllowedTeams
  {
    var k := |TeamPrefix|;
    var n := Decimal.Value(t[k..]);
    Decimal.ShowOfValue(t[k..]);
    assert t == t[..k] + t[k..];
    TeamAt(n - 1);
    assert AllowedTeams[n - 1] == t;
  }

  /** Membership in the generated team list is exactly the shape "team<n>" with n canonical and 1 <= n <= 99. */
  lemma AllowedTeamIff(t: string)
    ensures t in AllowedTeams <==> IsTeamName(t)
  {
    if t in AllowedTeams {
      AllowedIsTeamName(t);
    }
    if IsTeamName(t) {
      TeamNameIsAllowed(t);
    }
  }

  /** `team100` is not accepted: the list ends at `team99`. */
  lemma Team100Rejected()
    ensures "team100" !in AllowedTeams
  {
    assert "team100"[4..] == "100";
    assert "100"[..2] == "10" && "10"[..1] == "1" && "1"[..0] == "";
    assert Decimal.Value("100") == 100;
    assert !IsTeamName("team100");
    AllowedTeamIff("team100");
  }

  /** The first and last names of the range are accepted. */
  lemma TeamBoundsAccepted()
    ensures "team1" in AllowedTeams
    ensures "team99" in AllowedTeams
  {
    TeamAt(0);
    assert Decimal.Show(1) == "1";
    assert AllowedTeams[0] == "team1";
    TeamAt(98);
    assert Decimal.Show(9) == "9" && Decimal.Show(99) == "99";
    assert AllowedTeams[98] == "team99";
  }

  /** Names that are not Python's rendering of 1..99 are rejected: no zero, no leading zero, no empty number. */
  lemma NonCanonicalTeamsRejected()
    ensures "team0" !in AllowedTeams
    ensures "team01" !in AllowedTeams
    ensures "team" !in AllowedTeams
  {
    AllowedTeamIff("team0");
    assert "team0"[4..] == "0";
    AllowedTeamIff("team01");
    assert "team01"[4..] == "01";
    AllowedTeamIff("team");
  }

  /**
   Station membership is exact string equality against the fourteen codes: a
   code in a different case is not a station.
   */
  lemma StationCodesExact()
    ensures |AllowedStations| == 14
    ensures "Teo" in AllowedStations && "clue1-7K9P2L5N6Q3W" in AllowedStations
    ensures "teo" !in AllowedStations && "TEO" !in AllowedStations
  {
  }

  /** The shape of the codes: `clue1` ... `clue9` codes, `clue10` ... `clue12` codes, then `Teo` and `Alex`. */
  lemma StationShape(i: int)
    requires 0 <= i < |AllowedStations|
    ensures i < 9 ==> |AllowedStations[i]| == 18 && AllowedStations[i][0] == 'c' && AllowedStations[i][5] == '-'
    ensures 9 <= i < 12 ==> |AllowedStations[i]| == 19 && AllowedStations[i][0] == 'c' && AllowedStations[i][5] != '-'
    ensures i == 12 ==> |AllowedStations[i]| == 3 && AllowedStations[i][0] == 'T'
    ensures i == 13 ==> |AllowedStations[i]| == 4 && AllowedStations[i][0] == 'A'
    ensures 9 <= i < 12 ==> '0' <= AllowedStations[i][5] <= '9'
    ensures i == 12 ==> AllowedStations[i] == "Teo"
    ensures i == 13 ==> AllowedStations[i] == "Alex"
  {
  }

  /** No station code is a proper prefix of another. */
  lemma StationsPrefixFree()
    ensures forall i, j ::
      (0 <= i < |AllowedStations| && 0 <= j < |AllowedStations| ==> !(AllowedStations[i] < AllowedStations[j]))
  {
    forall i, j | 0 <= i < |AllowedStations| && 0 <= j < |AllowedStations|
      ensures !(AllowedStations[i] < AllowedStations[j])
    {
      StationShape(i);
      StationShape(j);
    }
  }

  /** A proper prefix of a station code, such as `clue1` or `clue1-`, is not a station. */
  lemma StationPrefixRejected()
    ensures forall i, k ::
      (0 <= i < |AllowedStations| && 0 <= k < |AllowedStations[i]| ==> AllowedStations[i][..k] !in AllowedStations)
  {
    StationsPrefixFree();
  }
}
