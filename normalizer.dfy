/**
 * The success branch of the match-by-id lookup: players are grouped by team id into a sparse
 * array, the groups are labelled `Team0`, `Team1`, ... in ascending id order and paired with
 * `TeamStats` by position, and the winner is derived from the ranks.
 */
module Normalizer {
  import opened Wrappers
  import opened Seqs
  import opened Upstream
  import opened Records

  const PENDING := "Pending"

  /** Reading `TeamStats[i].Score` past the end of `TeamStats`. */
  const MISSING_TEAM_STATS := "TypeError: Cannot read properties of undefined (reading 'Score')"

  // ---------------------------------------------------------------- team labels

  function Digit(d: nat): char
    requires d < 10
  {
    (48 + d) as char
  }

  /** The decimal text JavaScript gives a non-negative integer when it is added to a string. */
  function Decimal(n: nat): (s: string)
    ensures 1 <= |s|
    ensures n < 10 <==> |s| == 1
  {
    if n < 10 then [Digit(n)] else Decimal(n / 10) + [Digit(n % 10)]
  }

  /** Different numbers have different decimal texts. */
  lemma {:induction false} DecimalInjective(a: nat, b: nat)
    requires Decimal(a) == Decimal(b)
    ensures a == b
  {
    var da, db := Decimal(a), Decimal(b);
    if a < 10 {
      assert Digit(a) == da[0] == db[0] == Digit(b);
      assert Digit(a) as int == 48 + a && Digit(b) as int == 48 + b;
    } else {
      assert da[..|da| - 1] == Decimal(a / 10);
      assert db[..|db| - 1] == Decimal(b / 10);
      DecimalInjective(a / 10, b / 10);
      assert Digit(a % 10) == da[|da| - 1] == db[|db| - 1] == Digit(b % 10);
      assert Digit(a % 10) as int == 48 + a % 10 && Digit(b % 10) as int == 48 + b % 10;
    }
  }

  /** The key `"Team" + i` under which the i-th team is stored; it is never "" and never "Pending". */
  function Label(i: nat): (l: string)
    ensures l != "" && l != PENDING
  {
    var l := "Team" + Decimal(i);
    assert l[0] == 'T' != PENDING[0];
    l
  }

  lemma LabelInjective(i: nat, j: nat)
    requires Label(i) == Label(j)
    ensures i == j
  {
    assert Label(i)[4..] == Decimal(i);
    assert Label(j)[4..] == Decimal(j);
    DecimalInjective(i, j);
  }

  // ---------------------------------------------------------------- grouping by team id

  function Gamertags(ps: seq<PlayerStat>): seq<string> {
    seq(|ps|, k requires 0 <= k < |ps| => ps[k].gamertag)
  }

  /** The team ids that occur among the players. */
  function TeamIds(ps: seq<PlayerStat>): set<nat> {
    if |ps| == 0 then {} else TeamIds(ps[..|ps| - 1]) + {ps[|ps| - 1].teamId}
  }

  lemma {:induction false} TeamIdsAre(ps: seq<PlayerStat>, t: nat)
    ensures t in TeamIds(ps) <==> exists k :: 0 <= k < |ps| && ps[k].teamId == t
  {
    if |ps| > 0 {
      var prefix := ps[..|ps| - 1];
      TeamIdsAre(prefix, t);
      assert forall k :: 0 <= k < |prefix| ==> prefix[k] == ps[k];
    }
  }

  /** Appending a player to `PlayerStats`: its id joins the ids, its gamertag joins its team, the array may grow. */
  lemma PlayerSnoc(ps: seq<PlayerStat>, p: PlayerStat)
    ensures TeamIds(ps + [p]) == TeamIds(ps) + {p.teamId}
    ensures ArrayLength(ps + [p]) == if p.teamId + 1 > ArrayLength(ps) then p.teamId + 1 else ArrayLength(ps)
    ensures forall t :: Members(ps + [p], t) == Members(ps, t) + if p.teamId == t then [p.gamertag] else []
  {
  }

  /** `players[t]` after the grouping loop: the gamertags of team t, in `PlayerStats` order. */
  function Members(ps: seq<PlayerStat>, t: nat): seq<string> {
    if |ps| == 0 then []
    else
      var last := ps[|ps| - 1];
      Members(ps[..|ps| - 1], t) + (if last.teamId == t then [last.gamertag] else [])
  }

  /** A team has members exactly when its id occurs, and never more members than there are players. */
  lemma {:induction false} MembersNonEmpty(ps: seq<PlayerStat>, t: nat)
    ensures Members(ps, t) == [] <==> t !in TeamIds(ps)
    ensures |Members(ps, t)| <= |ps|
  {
    if |ps| > 0 {
      MembersNonEmpty(ps[..|ps| - 1], t);
    }
  }

  /** `players.length` after the grouping loop: one more than the largest team id, or 0. */
  function ArrayLength(ps: seq<PlayerStat>): nat {
    if |ps| == 0 then 0
    else
      var n := ArrayLength(ps[..|ps| - 1]);
      var t := ps[|ps| - 1].teamId;
      if t + 1 > n then t + 1 else n
  }

  /** Every team id lies below the array length, and the last index of the array holds a team. */
  lemma {:induction false} ArrayLengthBounds(ps: seq<PlayerStat>)
    ensures forall t :: t in TeamIds(ps) ==> t < ArrayLength(ps)
    ensures ArrayLength(ps) == 0 || ArrayLength(ps) - 1 in TeamIds(ps)
  {
    if |ps| > 0 {
      ArrayLengthBounds(ps[..|ps| - 1]);
    }
  }

  /** The ids of `ids` below n, ascending: what `Object.keys` lists for a sparse array of length n. */
  function IdsBelow(ids: set<nat>, n: nat): seq<nat> {
    if n == 0 then [] else IdsBelow(ids, n - 1) + (if n - 1 in ids then [n - 1] else [])
  }

  /** The listed ids are ascending and are exactly the ids below n. */
  lemma {:induction false} IdsBelowSorted(ids: set<nat>, n: nat)
    ensures forall i :: 0 <= i < |IdsBelow(ids, n)| ==> IdsBelow(ids, n)[i] < n
    ensures forall i, j :: 0 <= i < j < |IdsBelow(ids, n)| ==> IdsBelow(ids, n)[i] < IdsBelow(ids, n)[j]
    ensures forall x :: x in IdsBelow(ids, n) <==> x in ids && x < n
  {
    if n > 0 {
      IdsBelowSorted(ids, n - 1);
    }
  }

  /** The team ids in the order `Object.keys(players)` visits them: every id once, ascending. */
  function TeamOrder(ps: seq<PlayerStat>): (order: seq<nat>)
    ensures forall i, j :: 0 <= i < j < |order| ==> order[i] < order[j]
    ensures forall t :: t in order <==> t in TeamIds(ps)
  {
    ArrayLengthBounds(ps);
    IdsBelowSorted(TeamIds(ps), ArrayLength(ps));
    IdsBelow(TeamIds(ps), ArrayLength(ps))
  }

  /** There are as many labelled teams as distinct team ids. */
  lemma TeamCount(ps: seq<PlayerStat>)
    ensures |TeamOrder(ps)| == |TeamIds(ps)|
  {
    var order := TeamOrder(ps);
    assert Distinct(order);
    ElemsCard(order);
    assert Elems(order) == TeamIds(ps);
  }

  // ---------------------------------------------------------------- the Teams object

  /** The `Teams` entries built for the ids of `order`, entry i from `stats[i]` and the members of `order[i]`. */
  function Entries(order: seq<nat>, ps: seq<PlayerStat>, stats: seq<TeamStat>): seq<TeamEntry>
    requires |order| <= |stats|
  {
    if |order| == 0 then []
    else
      var i := |order| - 1;
      Entries(order[..i], ps, stats) + [TeamEntry(Label(i), stats[i].score, stats[i].rank, stats[i].roundStats, Members(ps, order[i]))]
  }

  /** Entry i is keyed `Team` + i and pairs `stats[i]` with the members of the i-th id of `order`. */
  lemma {:induction false} EntriesAt(order: seq<nat>, ps: seq<PlayerStat>, stats: seq<TeamStat>)
    requires |order| <= |stats|
    ensures |Entries(order, ps, stats)| == |order|
    ensures forall i :: 0 <= i < |order| ==>
      Entries(order, ps, stats)[i] == TeamEntry(Label(i), stats[i].score, stats[i].rank, stats[i].roundStats, Members(ps, order[i]))
  {
    if |order| > 0 {
      var prefix := order[..|order| - 1];
      EntriesAt(prefix, ps, stats);
      assert forall i :: 0 <= i < |prefix| ==> prefix[i] == order[i];
    }
  }

  function Teams(body: MatchBody): seq<TeamEntry>
    requires |TeamOrder(body.playerStats)| <= |body.teamStats|
  {
    Entries(TeamOrder(body.playerStats), body.playerStats, body.teamStats)
  }

  /** Every member of every team, team after team in label order. */
  function AllMembers(teams: seq<TeamEntry>): seq<string> {
    if |teams| == 0 then [] else AllMembers(teams[..|teams| - 1]) + teams[|teams| - 1].members
  }

  // ---------------------------------------------------------------- the winner

  /** `Winner` before the teams are visited: "Pending" when `IsMatchOver == false`, else "". */
  function InitialWinner(isMatchOver: bool): string {
    if !isMatchOver then PENDING else ""
  }

  /** `Winner` after visiting the teams in order, each taking it when its rank is 1 and it is still "". */
  function WinnerFold(w: string, teams: seq<TeamEntry>): string {
    if |teams| == 0 then w
    else
      var before := WinnerFold(w, teams[..|teams| - 1]);
      var last := teams[|teams| - 1];
      if last.rank == 1 && before == "" then last.teamName else before
  }

  /** The position of the first team, in label order, whose rank is 1. */
  function FirstRankOne(teams: seq<TeamEntry>): (r: Option<nat>)
    ensures r.Some? ==> r.value < |teams| && teams[r.value].rank == 1
    ensures r.Some? ==> forall j :: 0 <= j < r.value ==> teams[j].rank != 1
    ensures r.None? ==> forall j :: 0 <= j < |teams| ==> teams[j].rank != 1
  {
    if |teams| == 0 then None
    else
      match FirstRankOne(teams[..|teams| - 1])
      case Some(i) => Some(i)
      case None => if teams[|teams| - 1].rank == 1 then Some(|teams| - 1) else None
  }

  /** A "Pending" winner is never overwritten. */
  lemma {:induction false} PendingKept(teams: seq<TeamEntry>)
    ensures WinnerFold(PENDING, teams) == PENDING
  {
    if |teams| > 0 {
      PendingKept(teams[..|teams| - 1]);
    }
  }

  /** Starting from "", the winner is the label of the first rank-1 team, or stays "" when there is none. */
  lemma {:induction false} WinnerIsFirstRankOne(teams: seq<TeamEntry>)
    requires forall i :: 0 <= i < |teams| ==> teams[i].teamName != ""
    ensures WinnerFold("", teams) == match FirstRankOne(teams) case Some(i) => teams[i].teamName case None => ""
  {
    if |teams| > 0 {
      var prefix := teams[..|teams| - 1];
      WinnerIsFirstRankOne(prefix);
      assert forall j :: 0 <= j < |prefix| ==> prefix[j] == teams[j];
    }
  }

  // ---------------------------------------------------------------- the lookup as a whole

  /** The match id looked up: the request's `matchid` on the direct path, the candidate's on the history path. */
  function MatchIdOf(event: Event, candidate: Option<Candidate>): string
    requires candidate.Some? || event.matchId.Some?
  {
    if candidate.None? then event.matchId.value else candidate.value.matchId
  }

  /** `MatchCompleteDate` and `TeamsFromContract`, present only when a history candidate is passed. */
  function HistoryTagOf(event: Event, candidate: Option<Candidate>): Option<HistoryTag> {
    if candidate.Some? then Some(HistoryTag(candidate.value.completedDate, event.players)) else None
  }

  /** How looking up one match ends, given the service's answer. */
  function Normalize(event: Event, candidate: Option<Candidate>, resp: Fetched<MatchBody>): Result<MatchInfo, Fault>
    requires candidate.Some? || event.matchId.Some?
  {
    if resp.NoResponse? then Failure(Thrown(NO_RESPONSE_OBJECT))
    else if Failed(resp) then Failure(Rejected(Rejection(event.id, resp)))
    else if |resp.body.teamStats| < |TeamOrder(resp.body.playerStats)| then Failure(Thrown(MISSING_TEAM_STATS))
    else
      var body := resp.body;
      var teams := Teams(body);
      Success(MatchInfo(body.isMatchOver, body.isTeamGame, MatchIdOf(event, candidate), body.totalDuration, body.mapId,
                        WinnerFold(InitialWinner(body.isMatchOver), teams), teams, HistoryTagOf(event, candidate)))
  }

  // ---------------------------------------------------------------- what a normalized record satisfies

  /** The i-th id of the order has exactly i smaller team ids: it is the i-th smallest. */
  lemma TeamOrderRank(ps: seq<PlayerStat>, i: nat)
    requires i < |TeamOrder(ps)|
    ensures |set t | t in TeamIds(ps) && t < TeamOrder(ps)[i]| == i
  {
    var order := TeamOrder(ps);
    var smaller := set t | t in TeamIds(ps) && t < order[i];
    var prefix := order[..i];
    forall t | t in smaller ensures t in Elems(prefix) {
      var j :| 0 <= j < |order| && order[j] == t;
      assert j < i;
      assert prefix[j] == t;
    }
    assert smaller == Elems(prefix);
    assert Distinct(prefix);
    ElemsCard(prefix);
  }

  /** An answer with status at most 200 and enough `TeamStats` yields the record built from it. */
  lemma NormalizeBuilds(event: Event, candidate: Option<Candidate>, resp: Fetched<MatchBody>)
    requires candidate.Some? || event.matchId.Some?
    requires resp.Answered? && resp.statusCode <= 200 && |TeamOrder(resp.body.playerStats)| <= |resp.body.teamStats|
    ensures var body := resp.body;
      Normalize(event, candidate, resp) ==
      Success(MatchInfo(body.isMatchOver, body.isTeamGame, MatchIdOf(event, candidate), body.totalDuration, body.mapId,
                        WinnerFold(InitialWinner(body.isMatchOver), Teams(body)), Teams(body), HistoryTagOf(event, candidate)))
  {
  }

  /** A lookup succeeds exactly when the service answered with a status of at most 200 and `TeamStats` covers every team. */
  lemma NormalizeSucceeds(event: Event, candidate: Option<Candidate>, resp: Fetched<MatchBody>)
    requires candidate.Some? || event.matchId.Some?
    ensures Normalize(event, candidate, resp).Success? <==>
      resp.Answered? && resp.statusCode <= 200 && |TeamIds(resp.body.playerStats)| <= |resp.body.teamStats|
  {
    if resp.Answered? {
      TeamCount(resp.body.playerStats);
    }
  }

  /**
   * The `Teams` object of a normalized record: one entry per distinct team id, keyed `Team0`,
   * `Team1`, ... with pairwise different keys; entry i holds `TeamStats[i]` and the members of
   * the i-th smallest team id.
   */
  lemma NormalizeTeams(event: Event, candidate: Option<Candidate>, resp: Fetched<MatchBody>)
    requires candidate.Some? || event.matchId.Some?
    requires Normalize(event, candidate, resp).Success?
    ensures var m := Normalize(event, candidate, resp).value;
      var ps := resp.body.playerStats;
      var stats := resp.body.teamStats;
      && |m.teams| == |TeamOrder(ps)| == |TeamIds(ps)|
      && (forall i :: 0 <= i < |m.teams| ==>
            m.teams[i] == TeamEntry(Label(i), stats[i].score, stats[i].rank, stats[i].roundStats, Members(ps, TeamOrder(ps)[i])))
      && (forall i, j :: 0 <= i < j < |m.teams| ==> m.teams[i].teamName != m.teams[j].teamName)
  {
    var ps := resp.body.playerStats;
    var stats := resp.body.teamStats;
    var order := TeamOrder(ps);
    var teams := Entries(order, ps, stats);
    assert Normalize(event, candidate, resp).value.teams == teams;
    TeamCount(ps);
    EntriesAt(order, ps, stats);
    LabelsDistinct(teams);
  }

  /** Teams labelled by position have pairwise different labels. */
  lemma LabelsDistinct(teams: seq<TeamEntry>)
    requires forall i :: 0 <= i < |teams| ==> teams[i].teamName == Label(i)
    ensures forall i, j :: 0 <= i < j < |teams| ==> teams[i].teamName != teams[j].teamName
  {
    forall i, j | 0 <= i < j < |teams| ensures teams[i].teamName != teams[j].teamName {
      if teams[i].teamName == teams[j].teamName {
        LabelInjective(i, j);
      }
    }
  }

  /** Concatenation of the members of the teams of `order`, in that order. */
  function MembersOfAll(order: seq<nat>, ps: seq<PlayerStat>): seq<string> {
    if |order| == 0 then [] else MembersOfAll(order[..|order| - 1], ps) + Members(ps, order[|order| - 1])
  }

  lemma {:induction false} AllMembersOfEntries(order: seq<nat>, ps: seq<PlayerStat>, stats: seq<TeamStat>)
    requires |order| <= |stats|
    ensures AllMembers(Entries(order, ps, stats)) == MembersOfAll(order, ps)
  {
    if |order| > 0 {
      var prefix := order[..|order| - 1];
      AllMembersOfEntries(prefix, ps, stats);
      var es := Entries(order, ps, stats);
      assert es[..|es| - 1] == Entries(prefix, ps, stats);
    }
  }

  lemma {:induction false} MembersOfAllNoPlayers(order: seq<nat>)
    ensures MembersOfAll(order, []) == []
  {
    if |order| > 0 {
      MembersOfAllNoPlayers(order[..|order| - 1]);
    }
  }

  /** One more player adds its gamertag once, to the team of its id, when that id is listed. */
  lemma {:induction false} MembersOfAllAddPlayer(order: seq<nat>, ps: seq<PlayerStat>, p: PlayerStat)
    requires Distinct(order)
    ensures multiset(MembersOfAll(order, ps + [p])) ==
      multiset(MembersOfAll(order, ps)) + if p.teamId in order then multiset{p.gamertag} else multiset{}
  {
    if |order| > 0 {
      var prefix := order[..|order| - 1];
      var last := order[|order| - 1];
      assert Distinct(prefix);
      MembersOfAllAddPlayer(prefix, ps, p);
      assert (ps + [p])[..|ps|] == ps;
      assert Members(ps + [p], last) == Members(ps, last) + (if p.teamId == last then [p.gamertag] else []);
      assert order == prefix + [last];
      assert p.teamId in order <==> p.teamId in prefix || p.teamId == last;
      assert p.teamId == last ==> p.teamId !in prefix;
    }
  }

  /** Listing the teams of any repeat-free order that covers every team id lists every player exactly once. */
  lemma {:induction false} MembersOfAllPartition(order: seq<nat>, ps: seq<PlayerStat>)
    requires Distinct(order)
    requires forall t :: t in TeamIds(ps) ==> t in order
    ensures multiset(MembersOfAll(order, ps)) == multiset(Gamertags(ps))
  {
    if |ps| == 0 {
      MembersOfAllNoPlayers(order);
    } else {
      var prefix := ps[..|ps| - 1];
      var p := ps[|ps| - 1];
      assert ps == prefix + [p];
      MembersOfAllPartition(order, prefix);
      MembersOfAllAddPlayer(order, prefix, p);
      assert p.teamId in TeamIds(ps);
      assert Gamertags(ps) == Gamertags(prefix) + [p.gamertag];
    }
  }

  /** Every gamertag of `PlayerStats` lands in exactly one team: the teams' members, together, are the players. */
  lemma NormalizePartition(event: Event, candidate: Option<Candidate>, resp: Fetched<MatchBody>)
    requires candidate.Some? || event.matchId.Some?
    requires Normalize(event, candidate, resp).Success?
    ensures var m := Normalize(event, candidate, resp).value;
      && multiset(AllMembers(m.teams)) == multiset(Gamertags(resp.body.playerStats))
      && |AllMembers(m.teams)| == |resp.body.playerStats|
  {
    var ps := resp.body.playerStats;
    var order := TeamOrder(ps);
    AllMembersOfEntries(order, ps, resp.body.teamStats);
    assert Distinct(order);
    MembersOfAllPartition(order, ps);
    assert |Gamertags(ps)| == |ps|;
  }

  /**
   * The winner of a normalized record: "Pending" when the match is not over; otherwise the key of
   * the first team, in key order, whose rank is 1; otherwise "".
   */
  lemma NormalizeWinner(event: Event, candidate: Option<Candidate>, resp: Fetched<MatchBody>)
    requires candidate.Some? || event.matchId.Some?
    requires Normalize(event, candidate, resp).Success?
    ensures var m := Normalize(event, candidate, resp).value;
      m.winner == if !m.isMatchOver then PENDING else match FirstRankOne(m.teams) case Some(i) => Label(i) case None => ""
  {
    var m := Normalize(event, candidate, resp).value;
    NormalizeTeams(event, candidate, resp);
    if !m.isMatchOver {
      PendingKept(m.teams);
    } else {
      WinnerIsFirstRankOne(m.teams);
    }
  }

  /**
   * `MatchCompleteDate` and `TeamsFromContract` are attached, unmodified, exactly on the history
   * path, and the record takes the candidate's match id; when the request also names a match,
   * both paths build the same teams and winner from the same answer.
   */
  lemma NormalizeHistoryPath(event: Event, c: Candidate, resp: Fetched<MatchBody>)
    ensures Normalize(event, Some(c), resp).Success? ==>
      var viaHistory := Normalize(event, Some(c), resp).value;
      && viaHistory.history == Some(HistoryTag(c.completedDate, event.players))
      && viaHistory.matchId == c.matchId
    ensures event.matchId.Some? ==>
      (Normalize(event, Some(c), resp).Success? <==> Normalize(event, None, resp).Success?)
    ensures event.matchId.Some? && Normalize(event, Some(c), resp).Success? ==>
      var viaHistory := Normalize(event, Some(c), resp).value;
      var direct := Normalize(event, None, resp).value;
      && direct.history.None?
      && direct.matchId == event.matchId.value
      && viaHistory.teams == direct.teams && viaHistory.winner == direct.winner
  {
  }

  /** Players A and B in team 0 and C and D in team 1 form two teams, ids 0 then 1. */
  lemma TwoTeamGrouping()
    ensures var ps := [PlayerStat(0, "A"), PlayerStat(0, "B"), PlayerStat(1, "C"), PlayerStat(1, "D")];
      && TeamOrder(ps) == [0, 1]
      && Members(ps, 0) == ["A", "B"]
      && Members(ps, 1) == ["C", "D"]
  {
    var ps := [PlayerStat(0, "A"), PlayerStat(0, "B"), PlayerStat(1, "C"), PlayerStat(1, "D")];
    var p0: seq<PlayerStat> := [];
    var p1 := p0 + [ps[0]];
    var p2 := p1 + [ps[1]];
    var p3 := p2 + [ps[2]];
    assert ps == p3 + [ps[3]];
    PlayerSnoc(p0, ps[0]);
    PlayerSnoc(p1, ps[1]);
    PlayerSnoc(p2, ps[2]);
    PlayerSnoc(p3, ps[3]);
    assert TeamIds(ps) == {0, 1};
    assert ArrayLength(ps) == 2;
    assert IdsBelow({0, 1}, 2) == [0, 1];
  }

  /** The teams of the two-team match: `Team0` is A and B with score 50 and rank 1, `Team1` is C and D. */
  lemma TwoTeamTeams()
    ensures var ps := [PlayerStat(0, "A"), PlayerStat(0, "B"), PlayerStat(1, "C"), PlayerStat(1, "D")];
      var stats := [TeamStat(50, 1, "[]"), TeamStat(20, 2, "[]")];
      && |TeamOrder(ps)| <= |stats|
      && Entries(TeamOrder(ps), ps, stats) == [TeamEntry("Team0", 50, 1, "[]", ["A", "B"]), TeamEntry("Team1", 20, 2, "[]", ["C", "D"])]
  {
    var ps := [PlayerStat(0, "A"), PlayerStat(0, "B"), PlayerStat(1, "C"), PlayerStat(1, "D")];
    var stats := [TeamStat(50, 1, "[]"), TeamStat(20, 2, "[]")];
    TwoTeamGrouping();
    assert Label(0) == "Team0" && Label(1) == "Team1";
    EntriesAt([0, 1], ps, stats);
  }

  /**
   * Match "12345" with players A and B in team 0 and C and D in team 1, ranked 1 and 2: the
   * winner is `Team0` once the match is over and "Pending" before.
   */
  lemma TwoTeamScenario(isMatchOver: bool, resp: Fetched<MatchBody>)
    requires resp == Answered(200, "", MatchBody(isMatchOver, true, "PT10M", "map",
      [PlayerStat(0, "A"), PlayerStat(0, "B"), PlayerStat(1, "C"), PlayerStat(1, "D")],
      [TeamStat(50, 1, "[]"), TeamStat(20, 2, "[]")]))
    ensures var teams := [TeamEntry("Team0", 50, 1, "[]", ["A", "B"]), TeamEntry("Team1", 20, 2, "[]", ["C", "D"])];
      var winner := if isMatchOver then "Team0" else PENDING;
      Normalize(Event("job", Some("12345"), None, None, None, None), None, resp) ==
      Success(MatchInfo(isMatchOver, true, "12345", "PT10M", "map", winner, teams, None))
  {
    TwoTeamTeams();
    TwoTeamWinner(isMatchOver);
    NormalizeBuilds(Event("job", Some("12345"), None, None, None, None), None, resp);
  }


  /** The winner of the two-team match: "Pending" while it runs, `Team0` (rank 1) once it is over. */
  lemma TwoTeamWinner(isMatchOver: bool)
    ensures var teams := [TeamEntry("Team0", 50, 1, "[]", ["A", "B"]), TeamEntry("Team1", 20, 2, "[]", ["C", "D"])];
      WinnerFold(InitialWinner(isMatchOver), teams) == if isMatchOver then "Team0" else PENDING
  {
    var teams := [TeamEntry("Team0", 50, 1, "[]", ["A", "B"]), TeamEntry("Team1", 20, 2, "[]", ["C", "D"])];
    if isMatchOver {
      WinnerIsFirstRankOne(teams);
    } else {
      PendingKept(teams);
    }
  }

  /** The first pass: each gamertag is pushed onto `players[TeamId]`, the sparse array growing as needed. */
  method GroupPlayers(ps: seq<PlayerStat>) returns (players: map<nat, seq<string>>, length: nat)
    ensures players.Keys == TeamIds(ps)
    ensures forall t :: t in players ==> players[t] == Members(ps, t)
    ensures length == ArrayLength(ps)
  {
    players := map[];
    length := 0;
    for k := 0 to |ps|
      invariant players.Keys == TeamIds(ps[..k])
      invariant forall t :: t in players ==> players[t] == Members(ps[..k], t)
      invariant length == ArrayLength(ps[..k])
    {
      TakeSnoc(ps, k);
      GroupPush(ps[..k], ps[k], players);
      var team := ps[k].teamId;
      var group := if team in players then players[team] else [];
      players := players[team := group + [ps[k].gamertag]];
      if team + 1 > length {
        length := team + 1;
      }
    }
    assert ps[..|ps|] == ps;
  }

  /** Pushing one more player's gamertag onto its team's group keeps the groups equal to `Members`. */
  lemma GroupPush(pre: seq<PlayerStat>, p: PlayerStat, players: map<nat, seq<string>>)
    requires players.Keys == TeamIds(pre)
    requires forall t :: t in players ==> players[t] == Members(pre, t)
    ensures var group := if p.teamId in players then players[p.teamId] else [];
      var after := players[p.teamId := group + [p.gamertag]];
      && after.Keys == TeamIds(pre + [p])
      && (forall t :: t in after ==> after[t] == Members(pre + [p], t))
      && ArrayLength(pre + [p]) == if p.teamId + 1 > ArrayLength(pre) then p.teamId + 1 else ArrayLength(pre)
  {
    PlayerSnoc(pre, p);
    MembersNonEmpty(pre, p.teamId);
  }

  lemma EntriesSnoc(order: seq<nat>, id: nat, ps: seq<PlayerStat>, stats: seq<TeamStat>)
    requires |order| < |stats|
    ensures var i := |order|;
      Entries(order + [id], ps, stats) ==
      Entries(order, ps, stats) + [TeamEntry(Label(i), stats[i].score, stats[i].rank, stats[i].roundStats, Members(ps, id))]
  {
  }

  lemma WinnerFoldSnoc(w: string, teams: seq<TeamEntry>, e: TeamEntry)
    ensures WinnerFold(w, teams + [e]) == if e.rank == 1 && WinnerFold(w, teams) == "" then e.teamName else WinnerFold(w, teams)
  {
  }

  /**
   * The second pass: the present indices of `players` are visited in ascending order, the i-th
   * becoming `"Team" + i` with `TeamStats[i]`, and a rank-1 team takes a still-empty winner.
   * It fails (`ok` false) when `TeamStats` runs out before the teams do.
   */
  method LabelTeams(ghost ps: seq<PlayerStat>, players: map<nat, seq<string>>, length: nat, stats: seq<TeamStat>, winner0: string)
    returns (ok: bool, teams: seq<TeamEntry>, winner: string)
    requires players.Keys == TeamIds(ps)
    requires forall t :: t in players ==> players[t] == Members(ps, t)
    requires length == ArrayLength(ps)
    ensures ok <==> |TeamOrder(ps)| <= |stats|
    ensures ok ==> teams == Entries(TeamOrder(ps), ps, stats) && winner == WinnerFold(winner0, teams)
  {
    var keys := IdsBelow(players.Keys, length);  // Object.keys(players)
    IdsBelowSorted(players.Keys, length);
    assert keys == TeamOrder(ps);
    teams, winner := [], winner0;
    for i := 0 to |keys|
      invariant i <= |stats|
      invariant teams == Entries(keys[..i], ps, stats)
      invariant winner == WinnerFold(winner0, teams)
    {
      if i >= |stats| {
        return false, teams, winner;
      }
      var team := keys[i];
      var entry := TeamEntry(Label(i), stats[i].score, stats[i].rank, stats[i].roundStats, players[team]);
      TakeSnoc(keys, i);
      EntriesSnoc(keys[..i], team, ps, stats);
      WinnerFoldSnoc(winner0, teams, entry);
      teams := teams + [entry];
      if entry.rank == 1 && winner == "" {
        winner := entry.teamName;
      }
    }
    assert keys[..|keys|] == keys;
    ok := true;
  }

  /** The lookup of one match, step by step as the adapter performs it once the answer has arrived. */
  method SingleMatchResults(event: Event, candidate: Option<Candidate>, resp: Fetched<MatchBody>)
    returns (r: Result<MatchInfo, Fault>)
    requires candidate.Some? || event.matchId.Some?
    ensures r == Normalize(event, candidate, resp)
  {
    var matchid := if candidate.None? then event.matchId.value else candidate.value.matchId;
    if resp.NoResponse? {
      return Failure(Thrown(NO_RESPONSE_OBJECT));
    }
    if Failed(resp) {
      return Failure(Rejected(Rejection(event.id, resp)));
    }
    var body := resp.body;
    var players, length := GroupPlayers(body.playerStats);
    var history := if candidate.Some? then Some(HistoryTag(candidate.value.completedDate, event.players)) else None;
    var winner := "";
    if !body.isMatchOver {
      winner := PENDING;
    }
    var ok, teams;
    ok, teams, winner := LabelTeams(body.playerStats, players, length, body.teamStats, winner);
    if !ok {
      return Failure(Thrown(MISSING_TEAM_STATS));
    }
    r := Success(MatchInfo(body.isMatchOver, body.isTeamGame, matchid, body.totalDuration, body.mapId, winner, teams, history));
  }
}
