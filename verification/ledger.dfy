/**
 The check-in ledger: one document collection per station, each document a
 `{team, timestamp}` record. Timestamps are abstract naturals standing for the
 server's wall-clock reading at insertion time.
 */
module Ledger {
  import Seqs

  /** One stored check-in document. */
  datatype Entry = Entry(team: string, timestamp: nat)

  /**
   A station's collection: its documents in insertion order, and whether the
   unique index on `team` has been built (besides the default `_id` index).
   */
  datatype Collection = Collection(entries: seq<Entry>, teamIndexed: bool)

  /** The database: station name to collection. A station without a key has no collection yet. */
  type Ledger = map<string, Collection>

  /** The documents a station holds; a missing collection reads as empty. */
  function EntriesAt(ledger: Ledger, station: string): (es: seq<Entry>)
    ensures station !in ledger ==> es == []
  {
    if station in ledger then ledger[station].entries else []
  }

  /** The documents of every station, forgetting index state. */
  function Documents(ledger: Ledger): (docs: map<string, seq<Entry>>)
    ensures docs.Keys == ledger.Keys
  {
    map s | s in ledger :: ledger[s].entries
  }

  /** Number of documents of a station's collection that belong to `team`. */
  function TeamCount(es: seq<Entry>, team: string): nat {
    if es == [] then 0 else (if es[0].team == team then 1 else 0) + TeamCount(es[1..], team)
  }

  /** Whether some document of the collection belongs to `team`. */
  predicate HasTeam(es: seq<Entry>, team: string) {
    exists i :: 0 <= i < |es| && es[i].team == team
  }

  /** No team has two documents in the collection: what the unique index on `team` guarantees. */
  predicate UniqueTeams(es: seq<Entry>) {
    Seqs.DistinctBy(es, EntryTeam)
  }

  function EntryTeam(e: Entry): string {
    e.team
  }

  /** A document's term in the count of `team`'s documents: 1 if it is the team's, else 0. */
  function TeamMark(team: string): Entry -> int {
    (e: Entry) => if e.team == team then 1 else 0
  }

  /** The count is the sum of the marks. */
  lemma {:induction false} TeamCountSum(es: seq<Entry>, team: string)
    ensures TeamCount(es, team) == Seqs.Sum(es, TeamMark(team))
  {
    if es != [] {
      TeamCountSum(es[1..], team);
    }
  }

  lemma {:induction false} TeamCountPositive(es: seq<Entry>, team: string)
    ensures TeamCount(es, team) > 0 <==> HasTeam(es, team)
  {
    if es != [] {
      TeamCountPositive(es[1..], team);
      if HasTeam(es[1..], team) {
        var i :| 0 <= i < |es[1..]| && es[1..][i].team == team;
        assert es[i + 1].team == team;
      }
      if HasTeam(es, team) && es[0].team != team {
        var i :| 0 <= i < |es| && es[i].team == team;
        assert es[1..][i - 1].team == team;
      }
    }
  }

  lemma TeamCountConcat(a: seq<Entry>, b: seq<Entry>, team: string)
    ensures TeamCount(a + b, team) == TeamCount(a, team) + TeamCount(b, team)
  {
    TeamCountSum(a + b, team);
    TeamCountSum(a, team);
    TeamCountSum(b, team);
    Seqs.SumConcat(a, b, TeamMark(team));
  }

  /** With unique teams, a team has at most one document, and exactly one when it has any. */
  lemma {:induction false} TeamCountUnique(es: seq<Entry>, team: string)
    requires UniqueTeams(es)
    ensures TeamCount(es, team) == (if HasTeam(es, team) then 1 else 0)
  {
    TeamCountPositive(es, team);
    if es != [] {
      TeamCountUnique(es[1..], team);
      TeamCountPositive(es[1..], team);
      if es[0].team == team {
        forall i | 0 <= i < |es[1..]|
          ensures es[1..][i].team != team
        {
          assert es[1..][i] == es[i + 1];
        }
      }
    }
  }

  /** Counting a team's documents does not depend on their order. */
  lemma TeamCountPermutation(a: seq<Entry>, b: seq<Entry>, team: string)
    requires multiset(a) == multiset(b)
    ensures TeamCount(a, team) == TeamCount(b, team)
  {
    TeamCountSum(a, team);
    TeamCountSum(b, team);
    Seqs.SumPermutation(a, b, TeamMark(team));
  }
}
