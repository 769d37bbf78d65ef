# Halo 5 match results adapter — a Dafny model of its decision logic

The adapter answers a job request in one of two ways. A request that names a `matchid` gets
that one match's result. Any other request is resolved from the player's history:

1. `gamertag`, `gamemode` and `gamedate` are checked.
2. The player's history for the mode is fetched. The matches completed at exactly `gamedate`
   become candidates, at most five, in the order the statistics service lists them.
3. Every candidate is looked up.
4. The candidates are compared with the team rosters the request declared (`players`). Only
   the matches in which every declared roster has an equal actual team are kept.
5. The kept matches are reported. If none is kept, a 400 "No games found" error is reported.

Each match lookup turns the service's body into a normalized record:

- Players are grouped by `TeamId` into a sparse array.
- The groups are keyed `Team0`, `Team1`, … and paired with `TeamStats` by position.
- A `Winner` is derived from the match state and the ranks.

The model has one module per part of the program:

| module | what it holds |
|---|---|
| `Wrappers` | `Option` and `Result` |
| `Seqs` | the elements of a sequence, distinctness and cardinality facts |
| `Upstream` | an HTTP answer as the adapter's callbacks see it, and the failure test on the status code |
| `Records` | the request, the parsed bodies and the normalized record |
| `Normalizer` | `singleMatchResults` |
| `History` | `getPlayerMatchHistory` |
| `Correlator` | `teamGamertagCompare` |
| `Handler` | `exports.handler` |

Every loop of the program is an imperative method. Each method is proved equal to a specification function:

| method | specification function |
|---|---|
| `GroupPlayers` | `TeamIds`, `Members`, `ArrayLength` |
| `LabelTeams` | `Entries`, `WinnerFold` |
| `SingleMatchResults` | `Normalize` |
| `CollectDates`, `GetPlayerMatchHistory` | `ScanHistory` |
| `CountMatchedRosters`, `TeamGamertagCompare` | `Correlate` |
| `LookUpCandidates`, `Handle` | `Outcome` |

The properties are lemmas about those functions.

How each kind of failure ends:

- **Rejected.** A step's promise rejects with an error object. The handler passes that object to the callback.
- **Thrown.** An exception is thrown inside an HTTP callback. Nothing catches it and the callback is never called. This happens when:
  - the HTTP library delivers no response object, so reading `response.statusCode` throws;
  - `TeamStats` has fewer entries than there are teams;
  - a history entry's date does not parse, so `toISOString` throws.
- **CallbackError.** An exception is thrown inside the promise chain. It reaches the callback as its error. This happens when a candidate record has no `TeamsFromContract`, so `Object.keys` throws.

Four behaviours of the code worth stating:

- **Team order.** Teams are keyed in ascending numeric `TeamId` order, because `Object.keys` lists a sparse array's indices that way. The order in which players list their teams plays no part.
- **Status test.** The status code is compared with `"200"` numerically, because JavaScript converts the string to a number.
- **Generic error text.** A failing upstream call always carries the generic "API error" text. `!response.statusCode > "200"` is never true, so the parsed body is never used.
- **First failing check.** A request without `matchid` that fails a check is settled by the first check that fails, with that check's 400 error. The model ends there; the code still issues the history request afterwards, see "Left out".

## Model

| member | source | states |
|---|---|---|
| Upstream.ParsedBodyBranch | index.js:130-134 | the branch that would use the parsed body as `data` is never taken, for any status code |
| Upstream.Rejection | index.js:129-143 | a failing answer rejects with its own status code (above 200), the job run id, the generic "API error" text as `data` and a null `error` |
| Normalizer.DecimalInjective | index.js:173 | different team indices have different decimal texts |
| Normalizer.Label | index.js:173 | a team key is never "" and never "Pending", so a key can never be mistaken for either winner value |
| Normalizer.LabelInjective | index.js:173 | two positions with the same key are the same position |
| Normalizer.TeamIdsAre | index.js:149-155 | a team id is a key of the grouping exactly when some player has that `TeamId` |
| Normalizer.MembersNonEmpty | index.js:151-154 | a team has members exactly when its id occurs, and never more than there are players |
| Normalizer.ArrayLengthBounds | index.js:151-153 | the array length exceeds every team id, and is 0 or one more than an id that occurs |
| Normalizer.IdsBelowSorted | index.js:172 | the present indices below the array length are listed strictly ascending, each once, and are exactly the ids below that length |
| Normalizer.TeamOrder | index.js:172 | the keys are visited in strictly ascending id order, and the visited ids are exactly the team ids of the players |
| Normalizer.TeamCount | index.js:172 | there are as many teams as distinct team ids |
| Normalizer.TeamOrderRank | index.js:172-173 | the team at position i has exactly i smaller team ids: it is the i-th smallest |
| Normalizer.EntriesAt | index.js:172-180 | the i-th team is keyed `Team` + i and holds `TeamStats[i]`'s score, rank and round stats and the members of the i-th visited id |
| Normalizer.FirstRankOne | index.js:181-183 | the position found has rank 1 and no earlier team has rank 1; when none is found no team has rank 1 |
| Normalizer.PendingKept | index.js:169-183 | a "Pending" winner is never overwritten by any sequence of teams |
| Normalizer.WinnerIsFirstRankOne | index.js:181-183 | starting from "", the winner is the key of the first rank-1 team, or "" when there is none |
| Normalizer.NormalizeSucceeds | index.js:126-185 | a lookup succeeds exactly when the service answered with status at most 200 and `TeamStats` has an entry for every distinct team id |
| Normalizer.NormalizeTeams | index.js:172-180 | a record has one team per distinct id; team i is keyed `Team` + i, the keys differ pairwise, and team i holds `TeamStats[i]` and the members of the i-th smallest id |
| Normalizer.LabelsDistinct | index.js:172-180 | teams keyed by position have pairwise different keys |
| Normalizer.MembersOfAllPartition | index.js:149-155 | taken over any list of distinct ids that includes every team id, the groups together are the players' gamertags as a multiset |
| Normalizer.NormalizePartition | index.js:149-179 | every gamertag of `PlayerStats` is in exactly one team: all teams' members together equal the gamertags as a multiset, and team sizes add up to the number of players |
| Normalizer.NormalizeWinner | index.js:162-183 | the winner is "Pending" when the match is not over, else the key of the first rank-1 team, else "" |
| Normalizer.NormalizeHistoryPath | index.js:110-168 | for every request, a lookup with a candidate takes the candidate's match id and carries its date and the request's `players` unmodified; when the request also names a match, the lookup without a candidate has neither key, and both build the same teams and winner and succeed together |
| Normalizer.TwoTeamGrouping | index.js:149-155 | players A, B on team 0 and C, D on team 1 group into ids 0 then 1 with members A, B and C, D |
| Normalizer.TwoTeamTeams | index.js:172-180 | those players and two `TeamStats` entries give `Team0` = A, B (score 50, rank 1) and `Team1` = C, D |
| Normalizer.TwoTeamWinner | index.js:169-183 | for those teams, the winner is `Team0` once the match is over and "Pending" before |
| Normalizer.TwoTeamScenario | index.js:144-185 | the whole record for match "12345" with those teams: winner `Team0` when over, "Pending" otherwise, no history keys |
| Normalizer.GroupPlayers | index.js:146-155 | the grouping loop builds, for every team id that occurs, that team's gamertags in order, and the array length |
| Normalizer.LabelTeams | index.js:172-184 | the labelling loop fails exactly when `TeamStats` is too short; otherwise it builds the specified teams and winner |
| Normalizer.SingleMatchResults | index.js:106-189 | the lookup ends exactly as `Normalize` specifies |
| History.ValidationFirst | index.js:206-229 | a missing or empty gamertag, then a mode other than custom or customlocal, then an invalid date, each give their own 400 error; the request is valid exactly when all three checks pass, and an invalid request ends the same whatever the service would answer |
| History.MatchingAppend | index.js:262-270 | the date filter distributes over concatenation, so it keeps the service's order |
| History.MatchingSound | index.js:262-270 | every candidate comes from an entry completed at exactly the requested instant |
| History.MatchingComplete | index.js:262-270 | every entry completed at exactly the requested instant yields a candidate |
| History.MatchingAll | index.js:262-270 | when every entry matches, every entry becomes a candidate, in order |
| History.ScanHistoryCandidates | index.js:256-277 | a successful search used a status of at most 200 and returns at most five candidates: the first min(5, n) of the n matching entries, in order, each from an entry at exactly the requested instant |
| History.ScanHistoryKeepsAll | index.js:261-276 | with five or fewer matching entries, every entry at the requested instant is a candidate |
| History.SevenSameDayEntries | index.js:256-277 | for gamertag X, mode custom and seven entries at the requested instant, the candidates are exactly the first five, in order |
| History.RankedRefused | index.js:213-219 | mode "ranked" is refused with the 400 mode error |
| History.CollectDates | index.js:257-271 | the collecting loop fails exactly when some entry's date does not parse; otherwise it collects the matching entries in order |
| History.GetPlayerMatchHistory | index.js:193-282 | the search ends exactly as `ScanHistory` specifies |
| Correlator.CountFound | index.js:76-93 | `matchfound` never exceeds the number of declared rosters |
| Correlator.CountFoundAll | index.js:76-93 | `matchfound` equals the number of declared rosters exactly when every declared roster has a counterpart |
| Correlator.RetainedIff | index.js:76-97 | a record is kept if and only if every declared roster has an actual team of the same length all of whose members occur in it |
| Correlator.FilterAppend | index.js:72-103 | the kept records of a concatenation are the kept records of each part, in order |
| Correlator.FilterMembers | index.js:72-103 | every output record is an input that is retained, every retained input is output, and the output is no longer than the input |
| Correlator.AreEqualPermutation | index.js:81 | reordering the gamertags of the actual team or of the declared roster does not change the comparison |
| Correlator.RetainedPermutation | index.js:77-93 | reordering the gamertags inside any actual team or declared roster does not change whether a record is kept |
| Correlator.AreEqualIsSetEquality | index.js:81 | for an actual team without repeated gamertags, the comparison is equal length plus equal sets of gamertags |
| Correlator.IdenticalRostersRetained | index.js:77-97 | a record is kept when every declared roster holds the same gamertags, counted with repeats, as some actual team, in any order of rosters and of gamertags |
| Correlator.NoTeamIsCD | index.js:81 | neither [B, A] nor [E, F] equals the declared roster [C, D] |
| Correlator.SecondRosterMissing | index.js:69-104 | declared [A, B] and [C, D] against actual [B, A] and [E, F]: the record is dropped |
| Correlator.OneTeamCountedTwice | index.js:86-93 | two identical declared rosters are both satisfied by one actual team, so the record is kept |
| Correlator.RepeatedGamertagMatches | index.js:81 | an actual team [A, A] matches the declared roster [A, B] although their sets differ |
| Correlator.CountMatchedRosters | index.js:76-91 | the two inner loops, with their `break`, count exactly the declared rosters that have a counterpart |
| Correlator.TeamGamertagCompare | index.js:69-104 | the comparison ends exactly as `Correlate` specifies |
| Handler.GatherValues | index.js:29-33 | the lookups all succeed exactly when their records are gathered, one per candidate, in candidate order |
| Handler.GatherFirstFailure | index.js:33 | a failed fan-out fails with the failure of the first candidate that fails |
| Handler.LookUpsTagged | index.js:29-31 | every gathered record carries its candidate's match id, its candidate's date and the request's `players` |
| Handler.LookUpRejection | index.js:129-143 | a candidate's rejected lookup always carries the generic "API error" text |
| Handler.ScanHistoryRejection | index.js:198-254 | every rejection of the history search carries `data` |
| Handler.DirectOutcome | index.js:6-24 | a request with a `matchid` is answered from that match alone: the history never matters, a missing response or a `TeamStats` shorter than the number of teams gives no reply, a status above 200 gives an error with that status code and the generic text, and a completed reply is exactly the normalized record of that match, with its match id and no history keys |
| Handler.InvalidRequestOutcome | index.js:206-229 | a request without `matchid` that fails a check gets that check's 400 error, whatever either service would answer |
| Handler.CompletedFromHistory | index.js:27-59 | a completed reply on the history path holds one to five records, each kept by the roster comparison and each the lookup of a candidate found in the history |
| Handler.HistoryCompletedOutcome | index.js:27-58 | on the history path the reply is completed exactly when the search, every lookup and the comparison succeed and the comparison keeps at least one record; the completed reply carries the job run id and every kept record, in candidate order |
| Handler.NoGamesOutcome | index.js:38-47 | the error without `data` is the reply exactly when the search and every lookup succeeded and the comparison kept nothing; it is the 400 "No games found" error |
| Handler.LookUpCandidates | index.js:29-33 | the fan-out loop ends exactly as the gathered lookups specify |
| Handler.Handle | index.js:5-66 | the handler ends exactly as `Outcome` specifies |

## Left out

- The HTTP requests, the URL construction, the subscription-key header and `process.env.apikey` (index.js:1-2, 117-126, 215, 230-236). Each service answer is a parameter: `fetchMatch` for the match endpoint, `fetchHistory` for the history endpoint.
- `JSON.parse` of bodies and the deep copies of error objects. Bodies are typed datatypes holding only the fields the adapter reads. A body of another shape is not modelled: a missing `PlayerStats`, `Results` or `TeamStats` field, or a `TeamId` that is not a non-negative integer. The error value a transport failure would carry is not modelled either, because the callback throws before using it.
- JavaScript `Date` parsing and `toISOString`. A date is the instant it parses to, or None when it is invalid. Two dates with the same instant have the same ISO text, so equality of texts is equality of instants.
- `console.log` calls, which only log.
- `TeamId` values of 2^32 - 1 and above. JavaScript stores them as ordinary properties, not array indices: they do not change `length`, and `Object.keys` lists them after the indices, in insertion order. The model's `ArrayIndex` type excludes them. `TeamId` values above 2^53 also lose precision in `JSON.parse`; they are excluded with the rest.
- History.ScanHistory: after a failed check the source does not return. It goes on to issue the history request, and the request's own callback can still throw. The model ends at the first rejection, because the caller only ever sees that.
- Handler.Gather: `Promise.all` rejects with the first failure in time. The model takes the first failure in candidate order. The order in which responses arrive is not modelled.
- Handler.Outcome: the check `!Array.isArray(matches)` is not modelled. The comparison always returns an array.
- Handler.Outcome: an exception thrown in an HTTP callback is modelled only as "no reply". The state the runtime is left in is not modelled.
