/**
 * The data the adapter reads and produces, as plain values: the request, the parsed bodies of
 * the two statistics endpoints, and the normalized match record.
 */
module Records {
  import opened Wrappers

  /**
   * The request's `id` and its `data` fields. `gamedate` is held as the instant the JavaScript
   * `Date` constructor gives for the string, in milliseconds since the epoch, and is None when
   * that instant is invalid (including when the field is absent).
   */
  datatype Event = Event(
    id: string,
    matchId: Option<string>,
    gamertag: Option<string>,
    gamemode: Option<string>,
    gamedate: Option<int>,
    players: Option<seq<seq<string>>>)

  /**
   * A `TeamId` used as an index of a JavaScript array: below 2^32 - 1. Only such keys count in
   * an array's `length` and are listed by `Object.keys` in ascending order.
   */
  type ArrayIndex = t: nat | t < 0xFFFF_FFFF

  /** One entry of the match body's `PlayerStats`: the player's `TeamId` and `Player.Gamertag`. */
  datatype PlayerStat = PlayerStat(teamId: ArrayIndex, gamertag: string)

  /** One entry of the match body's `TeamStats`; `RoundStats` is carried through as its JSON text. */
  datatype TeamStat = TeamStat(score: int, rank: int, roundStats: string)

  /** The fields of the match-by-id body that the adapter reads. */
  datatype MatchBody = MatchBody(
    isMatchOver: bool,
    isTeamGame: bool,
    totalDuration: string,
    mapId: string,
    playerStats: seq<PlayerStat>,
    teamStats: seq<TeamStat>)

  /** One value of the record's `Teams` object, together with the key (`Team0`, `Team1`, ...) it is stored under. */
  datatype TeamEntry = TeamEntry(teamName: string, score: int, rank: int, roundStats: string, members: seq<string>)

  /**
   * The two keys added only on the history path: `MatchCompleteDate` (the history entry's date
   * text) and `TeamsFromContract` (the request's `players`, undefined when it has none).
   */
  datatype HistoryTag = HistoryTag(matchCompleteDate: string, teamsFromContract: Option<seq<seq<string>>>)

  /** The normalized match record; `Teams` keeps the insertion order of its keys. */
  datatype MatchInfo = MatchInfo(
    isMatchOver: bool,
    isTeamGame: bool,
    matchId: string,
    totalDuration: string,
    mapId: string,
    winner: string,
    teams: seq<TeamEntry>,
    history: Option<HistoryTag>)

  /**
   * One entry of the history body's `Results`: `Id.MatchId`, `MatchCompletedDate.ISO8601Date`
   * and the instant that date string parses to (None when `toISOString` would throw).
   */
  datatype HistoryEntry = HistoryEntry(matchId: string, isoDate: string, instant: Option<int>)

  /** A candidate found in the history: the pair `[MatchId, ISO8601Date]`. */
  datatype Candidate = Candidate(matchId: string, completedDate: string)
}
