# Treasure hunt engine: check-in recorder and leaderboard, in Dafny

This project models the core of the treasure-hunt server `dietro.py`:

- the two allow-lists a QR-code scan is validated against: fourteen station codes, and the team names generated by `range(1, 100)`;
- the check-in handler `GET /<stationid>/<teamid>`. It validates the pair. It builds the unique `team` index of the station's collection when only `_id` is indexed. It then inserts `{team, timestamp}` and answers "received", "possibly duplicate" or "invalid";
- the leaderboard scoring of `GET /leaderboard`, up to the sorted `(team, points)` list that the page is rendered from. For each station: sort its documents by timestamp, set `base = 20 + round(120 / n)`, give the first document 1.25 times the base and every other document the base, and add the points to a per-team dict. Finally, sort the dict's items by points, highest first.

The database is an immutable value: `Ledger.Ledger` maps a station to its `Collection`, which is the documents in insertion order plus whether the unique `team` index exists. A check-in (`Recorder.CheckIn`) is a function from a ledger to a reply and a new ledger. The leaderboard (`Scoring.Leaderboard`) is a function of a ledger. Points are kept in quarter-points. The 1.25 multiplier makes every score a multiple of 0.25, which binary floating point also represents exactly. So `q` quarter-points stand for `q / 4` points without loss.

Modules, following the program's structure:

| file | module | what it holds |
|---|---|---|
| `decimal.dfy` | `Decimal` | Python's `str` of a natural number, and reading it back |
| `allowlist.dfy` | `AllowList` | the station codes and the `team1` … `team99` list |
| `seqs.dfy` | `Seqs` | distinctness by an identity, and sums over a sequence, which do not depend on its order |
| `ledger.dfy` | `Ledger` | documents, collections, the database, counting a team's documents |
| `recorder.dfy` | `Recorder` | the check-in handler, its replies and the invariant it keeps |
| `rounding.dfy` | `Rounding` | Python's `round` on a quotient: half to even |
| `stablesort.dfy` | `StableSort` | a stable sort by an integer key, used for both sorts |
| `scoring.dfy` | `Scoring` | station awards, the per-team tally, the sorted leaderboard, and reference definitions of a team's score |

Behaviour of the store that the handler relies on, stated explicitly in the model:

- `index_information()` of a collection that does not exist yet is empty. So the first check-in at a new station finds 0 indexes, builds nothing, and inserts without a unique index. The second check-in finds 1 index (`_id`), builds the unique `team` index, and then inserts.
- Building a unique index over duplicate values fails. That call sits outside the `try`, so the failure would escape the handler as an HTTP 500. The model has a reply `IndexBuildFailed` for it, and `Recorder.CheckInNeverFailsIndex` proves it never happens on a ledger reachable by check-ins.
- With the index in place, inserting a team that already has a document is refused. Any other failure of the insert is an input, `insertFault`. The source answers both the same way: a 200 "Error: Possibly duplicate team entry.".

Points of the code that are easy to misread, all followed by the model:

- `range(1, 100)` stops at 99, so the team list runs `team1` … `team99` and `team100` is rejected (`AllowList.Team100Rejected`, `Recorder.Team100Example`).
- The bonus is Python's `round(120 / n)`, which rounds halves to the even integer: n = 48 gives 2 (from 2.5) and n = 240 gives 0 (from 0.5); see `Rounding.BonusExamples`. The float `120 / n` is exact at every tie (n = 16, 48, 80, 240). Away from a tie it is at least 1/(2n) from a half, so exact rational rounding gives the same integer.
- The leaderboard page prints each team's points as Python holds them (dietro.py:171): an `int` while only plain awards have been added, a float such as 46.25 once a first-finder award is in the sum; nothing truncates them. The model keeps the exact value, in quarter-points.

## Model

| member | source | states |
|---|---|---|
| Decimal.Show | dietro.py:50 | the text `f"{i}"` puts after `team`: canonical decimal digits (no sign, no leading zero), a single digit exactly below 10 |
| Decimal.DigitValue | dietro.py:50 | reading a digit character gives the digit that prints as it |
| Decimal.ValueOfShow | dietro.py:50 | reading back the decimal text of n gives n |
| Decimal.ShowOfValue | dietro.py:50 | canonical digit text is the decimal text of the number it denotes, so the names of the list are exactly the canonical ones |
| Decimal.ShowInjective | dietro.py:50 | two numbers have the same decimal text if and only if they are equal, so the generated team names are distinct |
| AllowList.TeamRange | dietro.py:50 | `[f"team{i}" for i in range(lo, hi)]` has `hi - lo` names, and none for an empty range |
| AllowList.TeamRangeAt | dietro.py:50 | the i-th name of `range(lo, hi)` is `team` followed by the digits of lo + i |
| AllowList.TeamAt | dietro.py:50 | the team list has 99 names, and the i-th is numbered i + 1 |
| AllowList.AllowedIsTeamName | dietro.py:50 | every allowed team name is `team` followed by the canonical digits of a number in 1..99 |
| AllowList.TeamNameIsAllowed | dietro.py:50 | every name `team<n>` with n canonical and in 1..99 is allowed |
| AllowList.AllowedTeamIff | dietro.py:50 | a name is allowed if and only if it is `team<n>` with n canonical and 1 <= n <= 99 |
| AllowList.Team100Rejected | dietro.py:50 | `team100` is not allowed: `range(1, 100)` stops at 99 |
| AllowList.TeamBoundsAccepted | dietro.py:50 | `team1` and `team99`, the two ends of the range, are allowed |
| AllowList.NonCanonicalTeamsRejected | dietro.py:50 | `team0`, `team01` and `team` are not allowed: no zero, no leading zero, no missing number |
| AllowList.StationCodesExact | dietro.py:34-49 | the station list holds fourteen codes, and membership is exact string equality: `Teo` is a station, `teo` and `TEO` are not |
| AllowList.StationShape | dietro.py:34-49 | the codes for clues 1 to 9 are 18 characters long with `-` after `clueN`; those for clues 10 to 12 are 19 characters long with a digit there; all twelve start with `c`; the last two codes are `Teo` and `Alex` |
| AllowList.StationsPrefixFree | dietro.py:34-49 | no station code is a proper prefix of another |
| AllowList.StationPrefixRejected | dietro.py:34-49 | every proper prefix of every station code, `clue1` and `clue1-` among them, fails the membership test |
| Ledger.EntriesAt | dietro.py:215 | `db[station]` of a collection that was never created reads as no documents |
| Ledger.Documents | dietro.py:215 | the documents of the database have exactly the database's stations as keys |
| Ledger.TeamCountPositive | dietro.py:218 | a team has a positive number of documents in a collection if and only if some document is the team's |
| Ledger.TeamCountUnique | dietro.py:218 | under the unique `team` index a team has exactly one document if it has any, and none otherwise |
| Ledger.TeamCountConcat | dietro.py:222-225 | a team's document count over two runs of documents is the sum of the two counts |
| Ledger.TeamCountSum | dietro.py:85-96 | a team's document count is the sum over the documents of a 1 for each of the team's and a 0 for the others |
| Seqs.SumConcat | dietro.py:74-96 | a sum over two runs of terms is the sum of the two sums |
| Seqs.MultisetRemove | dietro.py:76-78 | taking the element at one position out of a sequence takes exactly one copy of it out of its multiset |
| Seqs.SumRemove | dietro.py:74-96 | taking one term out of a sequence takes exactly its value out of the sum |
| Seqs.SumPermutation | dietro.py:74-96 | a sum is the same for any reordering of its terms that keeps the multiset, so neither the order of `list_collection_names()` nor the order of a station's documents changes a total |
| Ledger.TeamCountPermutation | dietro.py:78 | reordering a collection, as `sort("timestamp", 1)` does, keeps every team's document count |
| Recorder.IndexCount | dietro.py:216-217 | `len(index_information())` is at most 2, and 0 exactly when the collection does not exist |
| Recorder.Record | dietro.py:215-239 | index building then insert: an existing collection leaves the step with the unique `team` index built (index count 2), unless the build fails, which changes nothing; a station without a collection gets one, with only `_id` indexed, exactly when the insert is recorded. Only the named station changes. A recorded check-in appends exactly `{team, now}`. Any other reply leaves every station's documents as they were. A record never follows a store fault, nor a team already indexed at the station. The index build fails exactly when one index exists and the documents repeat a team |
| Recorder.CheckIn | dietro.py:206-239 | the reply is `InvalidId` with status 400 if and only if the pair is off the allow-lists, and then nothing changes. Otherwise only the named station changes, and a recorded check-in appends exactly one document. Status 200 means "received" or "possibly duplicate", both naming the station and team. For an allowed pair the index rule of `Recorder.Record` holds: an existing collection ends with the unique index, a new one is created without it and only by a recorded insert |
| Recorder.AppendUnique | dietro.py:218-225 | appending a team's first document keeps a collection's teams distinct |
| Recorder.RecordPreservesValid | dietro.py:215-232 | the store step keeps the invariant: teams distinct at each station, and a collection without the unique index holds at most one document |
| Recorder.CheckInPreservesValid | dietro.py:206-239 | every check-in keeps that invariant, and creates collections only for allowed stations |
| Recorder.CheckInNeverFailsIndex | dietro.py:217-218 | on a ledger satisfying the invariant the index build never meets a duplicate, so the handler never answers 500 |
| Recorder.RecordRecordedIff | dietro.py:221-239 | on a ledger satisfying the invariant, the store step records if and only if the insert does not fail and the team has no document at the station yet; otherwise it answers "possibly duplicate" |
| Recorder.CheckInRecordedIff | dietro.py:206-239 | on a ledger satisfying the invariant, an allowed check-in is recorded if and only if the insert does not fail and the team has no document at the station yet; otherwise it answers "possibly duplicate" for the same station and team |
| Recorder.RecordExactlyOne | dietro.py:215-232 | on a ledger satisfying the invariant, after a store step that meets no store fault, the team has exactly one document at the station |
| Recorder.CheckInExactlyOne | dietro.py:206-232 | on a ledger satisfying the invariant, after an allowed check-in that meets no store fault, the team has exactly one document at the station, whether it was new or already there |
| Recorder.CheckInTwice | dietro.py:217-232 | on a ledger satisfying the invariant, scanning the same code twice with an allowed pair: the second scan answers "possibly duplicate", the documents stay as the first scan left them, and the team has one document there |
| Recorder.Replay | dietro.py:206-239 | handling scans one after another never removes a station's collection and only appends documents: each station's documents before are a prefix of its documents after |
| Recorder.ReplayValid | dietro.py:206-239 | any sequence of scans from a valid ledger whose collections belong to allowed stations (the empty database among them) keeps it valid, with no station holding duplicate teams, and creates only allowed stations |
| Recorder.ReplayFromEmpty | dietro.py:206-239 | every history of scans starting from the empty database leaves no station with duplicate teams and creates only allowed stations |
| Recorder.UnknownStationRejected | dietro.py:209-213 | every station code off the allow-list is answered `InvalidId`, status 400, with the ledger unchanged, whatever the team, time or store state |
| Recorder.Team100Example | dietro.py:209-213 | `team100` is answered `InvalidId`, status 400, with the ledger unchanged, at every station and in every store state |
| Rounding.RoundHalfEven | dietro.py:83 | `round(p / q)`: the result is within half of p / q, and on an exact half it is even |
| Rounding.RoundHalfEvenUnique | dietro.py:83 | any integer within half of p / q, and even on an exact half, is the one computed: the rounding is fully determined |
| Rounding.Bonus | dietro.py:83 | `round(120 / n)` is the half-to-even rounding of 120 / n, and at most 120 |
| Rounding.BonusExamples | dietro.py:83 | the bonus for 1, 3, 7, 16, 48, 80, 240 and 241 teams is 120, 40, 17, 8, 2, 2, 0 and 0 |
| StableSort.FirstMin | dietro.py:78 | the position of the first element with the smallest key: no key is smaller, and every earlier key is larger |
| StableSort.Insert | dietro.py:78 | inserting adds exactly the one element and keeps all the others |
| StableSort.SortBy | dietro.py:78 | the sort is a permutation of its input |
| StableSort.InsertSorted | dietro.py:78 | inserting into a sorted sequence keeps it sorted |
| StableSort.SortBySorted | dietro.py:78 | the sort's output is in non-decreasing key order |
| StableSort.InsertWithKey | dietro.py:78 | inserting puts the new element before every element of equal key |
| StableSort.SortByStable | dietro.py:99 | among elements with the same key, the sort keeps the input order, as Python's `sorted` does |
| StableSort.SortByStableAll | dietro.py:99 | the same stability, for every key at once |
| StableSort.SortByHead | dietro.py:78 | the first element of the sorted output is the first input element with the smallest key |
| StableSort.InsertDistinct | dietro.py:87-88 | inserting a new identity keeps identities distinct |
| StableSort.SortByDistinct | dietro.py:99 | sorting neither merges nor duplicates identities |
| Scoring.BasePoints | dietro.py:83-91 | `20 + round(120 / n)` lies between 20 and 140 |
| Scoring.ByTime | dietro.py:78 | the station's documents in timestamp order: a permutation of them, sorted by timestamp |
| Scoring.FirstFinder | dietro.py:78-95 | the first finder is one of the station's documents, and no document has an earlier timestamp |
| Scoring.Awards | dietro.py:85-97 | one award per document, in order, to the document's team: 5 quarter-base for index 0 of the station, 4 for every other |
| Scoring.StationAwards | dietro.py:79-97 | a station hands out one award per document, and none when it is empty |
| Scoring.Teams | dietro.py:87-88 | the teams of a board, line by line |
| Scoring.Credit | dietro.py:87-97 | `if team not in leaderboard: leaderboard[team] = 0` then `+= pts`: a new team is appended last and existing teams keep their places; exactly that team's points grow by pts |
| Scoring.AwardsRowSum | dietro.py:85-97 | non-first awards give a team 4 times the base per document it has |
| Scoring.AwardsFirstRowSum | dietro.py:85-97 | a station's awards give the first document's team one extra quarter of the base |
| Scoring.ByTimeHead | dietro.py:78-95 | the first document in timestamp order is the first finder's |
| Scoring.StationAwardsSum | dietro.py:79-97 | a station's awards to a team, counted over its time-sorted documents |
| Scoring.StationScoreSorted | dietro.py:79-97 | the reference score of a station, counted over its time-sorted documents |
| Scoring.StationAwardsScore | dietro.py:79-97 | what a station's loop gives a team equals the reference score: base times (4 per document of the team, plus 1 if it found the station first) |
| Scoring.AwardsTotal | dietro.py:85-97 | non-first awards total 4 times the base per document |
| Scoring.AwardsFirstTotal | dietro.py:85-97 | a station's awards total 5 bases for the first document and 4 for each other |
| Scoring.StationAwardsTotal | dietro.py:79-97 | a station with n documents hands out (n + 0.25) times its base in all |
| Scoring.AwardsTeams | dietro.py:85-88 | a team gets an award from a run of documents if and only if it has a document in it |
| Scoring.StationAwardsTeams | dietro.py:79-88 | a team gets an award at a station if and only if it has a document there |
| Scoring.CreditDistinct | dietro.py:87-88 | crediting keeps one line per team |
| Scoring.CreditAll | dietro.py:85-97 | crediting a station's awards in turn adds to each team exactly the sum of its awards, and the teams with a line are exactly the old ones plus the awarded ones |
| Scoring.CreditAllDistinct | dietro.py:85-97 | crediting a station's awards keeps one line per team |
| Scoring.StationAwardsAll | dietro.py:79-97 | for every team at once, a station's awards sum to the team's reference score there, and the team is awarded exactly when it has a document there |
| Scoring.FoundAtSplit | dietro.py:76 | a team has a document at some listed station if and only if it has one at the first station or at a later one |
| Scoring.FoundAtSplitAll | dietro.py:76 | the same split, for every team at once |
| Scoring.Tally | dietro.py:74-97 | the loop over `list_collection_names()` adds to each team exactly its reference total over the listed stations, and the teams with a line are exactly the earlier ones plus those with a document at a listed station |
| Scoring.TallyDistinct | dietro.py:74-97 | the loop over stations keeps one line per team |
| Scoring.PointsOfLine | dietro.py:87-97 | with one line per team, a line's points are what the dict holds for its team |
| Scoring.TeamTotalConcat | dietro.py:76 | a team's total over two lists of stations is the sum of its two totals |
| Scoring.TeamTotalSum | dietro.py:74-96 | a team's total is the sum over the listed stations of its score at each |
| Scoring.TeamTotalPermutation | dietro.py:74-76 | a team's total does not depend on the order the stations are listed in |
| Scoring.OrderCoversLedger | dietro.py:74-76 | listing every collection once visits every station that has a team's document |
| Scoring.Leaderboard | dietro.py:71-99 | the leaderboard is the per-team board of the loops reordered (same multiset of lines), with points non-increasing, and teams with equal points in the order the loops first met them |
| Scoring.RankedByPoints | dietro.py:99 | lines in increasing order of the rank key `-points` are in non-increasing order of points, as `reverse=True` gives |
| Scoring.LeaderboardDistinct | dietro.py:87-99 | each team has at most one line on the leaderboard |
| Scoring.TeamsInPermutation | dietro.py:99 | reordering lines keeps the set of teams |
| Scoring.LeaderboardTeams | dietro.py:74-99 | a team is on the leaderboard if and only if it has a document at some station |
| Scoring.LeaderboardTotals | dietro.py:74-99 | each line carries its team's total over all stations: per station, base times (4 per document plus 1 for the first finder) |
| Scoring.LeaderboardTotalsOrderFree | dietro.py:74-76 | the totals do not depend on the order in which `list_collection_names()` lists the stations |
| Scoring.EmptyLeaderboard | dietro.py:79-81 | a database whose collections are all empty gives an empty leaderboard |
| Scoring.TallyOne | dietro.py:76-97 | tallying a single station credits exactly that station's awards |
| Scoring.ExampleByTime | dietro.py:78 | documents inserted at times 20, 10, 30 come back in the order 10, 20, 30 |
| Scoring.ExampleBase | dietro.py:83-91 | a station found by three teams has base 20 + round(40) = 60 |
| Scoring.ExampleAwardRows | dietro.py:85-97 | with base 60, three documents earn 75, 60 and 60 points |
| Scoring.ExampleAwards | dietro.py:79-97 | the station's awards go to the earliest team first, with 75 points |
| Scoring.ExampleCredits | dietro.py:87-97 | crediting three different teams lists them in the order met |
| Scoring.ExampleRanking | dietro.py:99 | 75, 60, 60 is already ranked, and the two tied teams keep their order |
| Scoring.ExampleTally | dietro.py:74-97 | the single-station database tallies to 75, 60, 60 |
| Scoring.ThreeTeamExample | dietro.py:71-99 | one station found by three teams, with documents inserted out of time order: the leaderboard is the earliest team with 75 points, then the other two with 60 each in timestamp order |

## Left out

- HTTP and Flask plumbing: routing, JSON bodies, the `errorMessage` text of the caught exception, and the `print` of the index information. Replies are a datatype, with `Recorder.Status` giving their HTTP status.
- The HTML of the leaderboard page and every other route of the application. They render or serve pages and do not compute scores or record check-ins.
- The MongoDB client. The database is an immutable value. Creating a collection on first access is modelled by a missing map key that reads as empty.
- `datetime.now()`: the timestamp is the parameter `now` of a check-in.
- Failures of `insert_one` other than the unique index: they are the boolean parameter `insertFault`, because the source handles every exception the same way. A raising `insert_one` is assumed to have stored nothing. `except Exception` also catches errors raised after the server applied the write, such as a write-concern error or a network error after the write: there the handler answers "possibly duplicate" although the document is stored, and the model does not cover that case.
- Failures of `create_index` other than duplicate values (for instance a lost connection). They also escape as HTTP 500 in the source, but the model has no input for them.
- Concurrency. Check-ins are handled one after another. Two simultaneous first check-ins at a new station would both find no index and both insert, because the index only exists from the second check-in on. After that, with a repeated team, the index build would fail on every later check-in at that station. The sequential model cannot reach that state.
- The order of documents with equal timestamps. The store does not promise one; the model takes insertion order.
- The order of `list_collection_names()`. It is the parameter `order` of `Scoring.Leaderboard`, required to list every collection once. `Scoring.LeaderboardTotalsOrderFree` shows the totals do not depend on it.
- Floating-point arithmetic: points are exact quarter-points, and `120 / n` is rounded exactly. This agrees with the float computation, as explained above.
- Scoring.BasePoints: its contract states only the range 20..140. Its value is characterised through `Rounding.Bonus`, whose contract states the exact rounding.
