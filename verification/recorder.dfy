/**
 The check-in handler `GET /<stationid>/<teamid>` as a pure transition on the
 ledger. The store's behaviour it relies on is made explicit: a collection that
 does not exist yet reports no indexes, a unique index cannot be built over
 duplicate values, and with the index in place an insert of an already present
 team is refused. A store failure of the insert itself is an input.
 */
module Recorder {
  import opened Ledger
  import AllowList

  /** The handler's answers. */
  datatype Reply =
    | Recorded(station: string, team: string)           // "GET request received!"
    | PossiblyDuplicate(station: string, team: string)  // "Error: Possibly duplicate team entry."
    | InvalidId                                         // "Invalid station or team ID"
    | IndexBuildFailed                                  // create_index raised outside the try block

  /** HTTP status of a reply; an exception that escapes the handler becomes Flask's 500. */
  function Status(r: Reply): nat {
    match r
    case Recorded(_, _) => 200
    case PossiblyDuplicate(_, _) => 200
    case InvalidId => 400
    case IndexBuildFailed => 500
  }

  predicate Allowed(station: string, team: string) {
    station in AllowList.AllowedStations && team in AllowList.AllowedTeams
  }

  /** Length of `index_information()`: no collection, `_id` only, or `_id` plus the unique `team` index. */
  function IndexCount(ledger: Ledger, station: string): (n: nat)
    ensures n <= 2
    ensures n == 0 <==> station !in ledger
  {
    if station !in ledger then 0 else if ledger[station].teamIndexed then 2 else 1
  }

  /**
   The store part of a check-in of an allowed pair: build the unique index when
   only `_id` exists, then insert `{team, now}`. `insertFault` says whether
   `insert_one` raises for a reason other than the unique index.
   */
  function Record(ledger: Ledger, station: string, team: string, now: nat, insertFault: bool): (r: (Reply, Ledger))
    ensures r.0.Recorded? || r.0.PossiblyDuplicate? || r.0.IndexBuildFailed?
    // Only the named station's collection can change.
    ensures forall s :: s != station ==> (s in r.1 <==> s in ledger)
    ensures forall s :: s != station && s in ledger ==> r.1[s] == ledger[s]
    // A recorded check-in appends one document; every other outcome leaves all documents as they were.
    ensures r.0.Recorded? ==> EntriesAt(r.1, station) == EntriesAt(ledger, station) + [Entry(team, now)]
    ensures !r.0.Recorded? ==> r.1.Keys == ledger.Keys
    ensures !r.0.Recorded? ==> forall s :: s in ledger ==> r.1[s].entries == ledger[s].entries
    ensures r.0.Recorded? || r.0.PossiblyDuplicate? ==> r.0.station == station && r.0.team == team
    // The insert is refused for a team already present only once the index exists.
    ensures r.0.Recorded? ==> !insertFault
    ensures r.0.Recorded? && station in ledger && ledger[station].teamIndexed ==> !HasTeam(ledger[station].entries, team)
    ensures r.0.IndexBuildFailed? <==> IndexCount(ledger, station) == 1 && !UniqueTeams(ledger[station].entries)
    ensures r.0.IndexBuildFailed? ==> r.1 == ledger
    // An existing collection leaves the step with the unique index built; a new one is created without it, and only by a recorded insert.
    ensures !r.0.IndexBuildFailed? && station in ledger ==> IndexCount(r.1, station) == 2
    ensures station !in ledger ==> IndexCount(r.1, station) == (if r.0.Recorded? then 1 else 0)
  {
    if IndexCount(ledger, station) == 1 && !UniqueTeams(ledger[station].entries) then
      (IndexBuildFailed, ledger)
    else
      var indexed :=
        if IndexCount(ledger, station) == 1
        then ledger[station := Collection(ledger[station].entries, true)]
        else ledger;
      var c := if station in indexed then indexed[station] else Collection([], false);
      if insertFault || (c.teamIndexed && HasTeam(c.entries, team)) then
        (PossiblyDuplicate(station, team), indexed)
      else
        (Recorded(station, team), indexed[station := Collection(c.entries + [Entry(team, now)], c.teamIndexed)])
  }

  /** The check-in handler: validate both identifiers against the allow-lists, then record. */
  function CheckIn(ledger: Ledger, station: string, team: string, now: nat, insertFault: bool): (r: (Reply, Ledger))
    // Validation comes first and touches nothing.
    ensures r.0 == InvalidId <==> !Allowed(station, team)
    ensures !Allowed(station, team) ==> r.1 == ledger
    ensures Status(r.0) == 400 <==> !Allowed(station, team)
    // Only the named station's collection can change.
    ensures forall s :: s != station ==> (s in r.1 <==> s in ledger)
    ensures forall s :: s != station && s in ledger ==> r.1[s] == ledger[s]
    // A recorded check-in appends one document; every other outcome leaves all documents as they were.
    ensures r.0.Recorded? ==> EntriesAt(r.1, station) == EntriesAt(ledger, station) + [Entry(team, now)]
    ensures !r.0.Recorded? ==> r.1.Keys == ledger.Keys
    ensures !r.0.Recorded? ==> forall s :: s in ledger ==> r.1[s].entries == ledger[s].entries
    ensures r.0.Recorded? || r.0.PossiblyDuplicate? ==> r.0.station == station && r.0.team == team
    ensures Status(r.0) == 200 <==> r.0.Recorded? || r.0.PossiblyDuplicate?
    // The index rule of the store step, for an allowed pair.
    ensures Allowed(station, team) && !r.0.IndexBuildFailed? && station in ledger ==> IndexCount(r.1, station) == 2
    ensures Allowed(station, team) && station !in ledger ==> IndexCount(r.1, station) == (if r.0.Recorded? then 1 else 0)
  {
    if !Allowed(station, team) then (InvalidId, ledger)
    else Record(ledger, station, team, now, insertFault)
  }

  /**
   The ledger invariant: no team has two documents at a station, and a
   collection still without its unique index holds at most its first document.
   */
  ghost predicate Valid(ledger: Ledger) {
    forall s :: s in ledger ==>
      && UniqueTeams(ledger[s].entries)
      && (!ledger[s].teamIndexed ==> |ledger[s].entries| <= 1)
  }

  /** Collections exist only for allowed stations. */
  ghost predicate StationsAllowed(ledger: Ledger) {
    forall s :: s in ledger ==> s in AllowList.AllowedStations
  }

  lemma AppendUnique(es: seq<Entry>, e: Entry)
    requires UniqueTeams(es) && !HasTeam(es, e.team)
    ensures UniqueTeams(es + [e])
  {
    var es' := es + [e];
    forall i, j | 0 <= i < j < |es'|
      ensures es'[i].team != es'[j].team
    {
      if j == |es| {
        assert es'[i] == es[i];
      } else {
        assert es'[i] == es[i] && es'[j] == es[j];
      }
    }
  }

  /** The store step keeps the ledger invariant. */
  lemma RecordPreservesValid(ledger: Ledger, station: string, team: string, now: nat, insertFault: bool)
    requires Valid(ledger)
    ensures Valid(Record(ledger, station, team, now, insertFault).1)
  {
    var r := Record(ledger, station, team, now, insertFault);
    if r.0.Recorded? {
      var es := EntriesAt(ledger, station);
      assert r.1[station].entries == es + [Entry(team, now)];
      if station in ledger {
        assert r.1[station].teamIndexed;
        assert !HasTeam(es, team);
        AppendUnique(es, Entry(team, now));
      } else {
        assert r.1[station] == Collection([Entry(team, now)], false);
      }
    }
  }

  /** Every check-in keeps the ledger invariant, and creates collections only for allowed stations. */
  lemma CheckInPreservesValid(ledger: Ledger, station: string, team: string, now: nat, insertFault: bool)
    requires Valid(ledger)
    ensures Valid(CheckIn(ledger, station, team, now, insertFault).1)
    ensures StationsAllowed(ledger) ==> StationsAllowed(CheckIn(ledger, station, team, now, insertFault).1)
  {
    if Allowed(station, team) {
      RecordPreservesValid(ledger, station, team, now, insertFault);
    }
  }

  /** On a valid ledger the index build never meets duplicates, so the handler never answers 500. */
  lemma CheckInNeverFailsIndex(ledger: Ledger, station: string, team: string, now: nat, insertFault: bool)
    requires Valid(ledger)
    ensures CheckIn(ledger, station, team, now, insertFault).0 != IndexBuildFailed
  {
    if station in ledger && !ledger[station].teamIndexed {
      assert UniqueTeams(ledger[station].entries);
    }
  }

  /**
   On a valid ledger the store step records the check-in exactly when the
   store does not fail and the team has no document at the station yet.
   */
  lemma RecordRecordedIff(ledger: Ledger, station: string, team: string, now: nat, insertFault: bool)
    requires Valid(ledger)
    ensures Record(ledger, station, team, now, insertFault).0.Recorded?
        <==> !insertFault && !HasTeam(EntriesAt(ledger, station), team)
    ensures !Record(ledger, station, team, now, insertFault).0.Recorded?
        ==> Record(ledger, station, team, now, insertFault).0 == PossiblyDuplicate(station, team)
  {
    if station in ledger && !ledger[station].teamIndexed {
      assert UniqueTeams(ledger[station].entries);
    }
  }

  /**
   On a valid ledger an allowed check-in is recorded exactly when the store does
   not fail and the team has no document at the station yet; otherwise the
   answer is the soft duplicate one.
   */
  lemma CheckInRecordedIff(ledger: Ledger, station: string, team: string, now: nat, insertFault: bool)
    requires Valid(ledger)
    requires Allowed(station, team)
    ensures CheckIn(ledger, station, team, now, insertFault).0.Recorded?
        <==> !insertFault && !HasTeam(EntriesAt(ledger, station), team)
    ensures !CheckIn(ledger, station, team, now, insertFault).0.Recorded?
        ==> CheckIn(ledger, station, team, now, insertFault).0 == PossiblyDuplicate(station, team)
  {
    RecordRecordedIff(ledger, station, team, now, insertFault);
  }

  /** After a store step that meets no store failure, the team has exactly one document at the station. */
  lemma RecordExactlyOne(ledger: Ledger, station: string, team: string, now: nat)
    requires Valid(ledger)
    ensures TeamCount(EntriesAt(Record(ledger, station, team, now, false).1, station), team) == 1
  {
    var r := Record(ledger, station, team, now, false);
    RecordPreservesValid(ledger, station, team, now, false);
    RecordRecordedIff(ledger, station, team, now, false);
    var after := EntriesAt(r.1, station);
    assert station in r.1;
    assert UniqueTeams(after);
    if r.0.Recorded? {
      assert after[|after| - 1].team == team;
    } else {
      assert after == EntriesAt(ledger, station);
    }
    TeamCountUnique(after, team);
  }

  /** After an allowed check-in that meets no store failure, the team has exactly one document at the station. */
  lemma {:induction false} CheckInExactlyOne(ledger: Ledger, station: string, team: string, now: nat)
    requires Valid(ledger)
    requires Allowed(station, team)
    ensures TeamCount(EntriesAt(CheckIn(ledger, station, team, now, false).1, station), team) == 1
  {
    RecordExactlyOne(ledger, station, team, now);
  }

  /**
   Scanning the same QR code twice: the second scan gets the soft duplicate
   answer and the documents stay as the first scan left them.
   */
  lemma {:induction false} CheckInTwice(ledger: Ledger, station: string, team: string, t1: nat, t2: nat)
    requires Valid(ledger)
    requires Allowed(station, team)
    ensures var first := CheckIn(ledger, station, team, t1, false);
            var second := CheckIn(first.1, station, team, t2, false);
            && second.0 == PossiblyDuplicate(station, team)
            && Documents(second.1) == Documents(first.1)
            && TeamCount(EntriesAt(second.1, station), team) == 1
  {
    var first := Record(ledger, station, team, t1, false);
    RecordPreservesValid(ledger, station, team, t1, false);
    RecordExactlyOne(ledger, station, team, t1);
    TeamCountPositive(EntriesAt(first.1, station), team);
    RecordRecordedIff(first.1, station, team, t2, false);
    RecordExactlyOne(first.1, station, team, t2);
    var second := Record(first.1, station, team, t2, false);
    assert Documents(second.1) == Documents(first.1);
  }

  /** One scan request: station code, team name, the clock at insertion, and whether the insert fails in the store. */
  datatype Scan = Scan(station: string, team: string, now: nat, insertFault: bool)

  /**
   A sequence of scans handled one after another. The store is append-only: no
   station's collection disappears, and its documents only grow at the end.
   */
  function Replay(ledger: Ledger, scans: seq<Scan>): (r: Ledger)
    ensures forall s :: s in ledger ==> s in r && ledger[s].entries <= r[s].entries
    decreases |scans|
  {
    if scans == [] then ledger
    else
      var sc := scans[0];
      var next := CheckIn(ledger, sc.station, sc.team, sc.now, sc.insertFault).1;
      assert forall s :: s in ledger ==> s in next && ledger[s].entries <= next[s].entries;
      Replay(next, scans[1..])
  }

  /**
   Any history of scans, starting from a valid ledger whose collections all
   belong to allowed stations (the empty database is one), keeps the ledger valid.
   */
  lemma {:induction false} ReplayValid(ledger: Ledger, scans: seq<Scan>)
    requires Valid(ledger) && StationsAllowed(ledger)
    ensures Valid(Replay(ledger, scans)) && StationsAllowed(Replay(ledger, scans))
    decreases |scans|
  {
    if scans != [] {
      var sc := scans[0];
      CheckInPreservesValid(ledger, sc.station, sc.team, sc.now, sc.insertFault);
      ReplayValid(CheckIn(ledger, sc.station, sc.team, sc.now, sc.insertFault).1, scans[1..]);
    }
  }

  /** Any history of scans starting from the empty database keeps it valid. */
  lemma ReplayFromEmpty(scans: seq<Scan>)
    ensures Valid(Replay(map[], scans)) && StationsAllowed(Replay(map[], scans))
  {
    ReplayValid(map[], scans);
  }

  /** A station code off the allow-list is refused with 400 and no change, whatever the team, time or store state. */
  lemma UnknownStationRejected(ledger: Ledger, station: string, team: string, now: nat, insertFault: bool)
    requires station !in AllowList.AllowedStations
    ensures CheckIn(ledger, station, team, now, insertFault) == (InvalidId, ledger)
    ensures Status(CheckIn(ledger, station, team, now, insertFault).0) == 400
  {
  }

  /** `team100`, one past the end of the team range, is refused with 400 and no change at every station. */
  lemma {:induction false} Team100Example(ledger: Ledger, station: string, now: nat, insertFault: bool)
    ensures CheckIn(ledger, station, "team100", now, insertFault) == (InvalidId, ledger)
    ensures Status(CheckIn(ledger, station, "team100", now, insertFault).0) == 400
  {
    AllowList.Team100Rejected();
  }
}
