/**
 * The player-history lookup used when the request names no match: the request's gamertag, game
 * mode and date are checked, the player's history is fetched, and the entries completed at
 * exactly the requested instant become candidates, at most five, in the order the service lists them.
 */
module History {
  import opened Wrappers
  import opened Seqs
  import opened Upstream
  import opened Records

  const GAMERTAG_MISSING := "gamertag parameter needed to search for games if matchid parameter is not used"
  const GAMEMODE_UNSUPPORTED := "gamemode parameter needs to be custom or customlocal to indicate which network/lobby type the game was played in"
  const GAMEDATE_INVALID := "gamedate needs to be a valid date that can be turned into an ISO8601 style date"

  /** Calling `toISOString` on a history entry's date that does not parse. */
  const INVALID_TIME := "RangeError: Invalid time value"

  /** The longest candidate list handed on. */
  const MAX_CANDIDATES := 5

  /** The checked request fields: the history is fetched for `gamertag` and `gamemode`, filtered on `gamedate`. */
  datatype Query = Query(gamertag: string, gamemode: string, gamedate: int)

  /** The error object every failed check rejects with: status 400, the message in `data`, `error` null. */
  function InvalidRequest(jobRunId: string, message: string): ErrorEnvelope {
    ErrorEnvelope(400, jobRunId, Some(message), None)
  }

  predicate SupportedMode(gamemode: Option<string>) {
    gamemode == Some("custom") || gamemode == Some("customlocal")
  }

  /**
   * The three checks in the order the lookup makes them. The first failing check settles the
   * lookup's promise, so later checks cannot change the outcome.
   */
  function Validate(event: Event): Result<Query, ErrorEnvelope> {
    if event.gamertag.None? || event.gamertag.value == "" then Failure(InvalidRequest(event.id, GAMERTAG_MISSING))
    else if !SupportedMode(event.gamemode) then Failure(InvalidRequest(event.id, GAMEMODE_UNSUPPORTED))
    else if event.gamedate.None? then Failure(InvalidRequest(event.id, GAMEDATE_INVALID))
    else Success(Query(event.gamertag.value, event.gamemode.value, event.gamedate.value))
  }

  /** The candidate pair `[MatchId, ISO8601Date]` pushed for an entry. */
  function CandidateOf(e: HistoryEntry): Candidate {
    Candidate(e.matchId, e.isoDate)
  }

  /** The entries completed at `instant`, as candidates, in the order the service lists them. */
  function Matching(entries: seq<HistoryEntry>, instant: int): seq<Candidate> {
    if |entries| == 0 then []
    else
      var last := entries[|entries| - 1];
      Matching(entries[..|entries| - 1], instant) + if last.instant == Some(instant) then [CandidateOf(last)] else []
  }

  /** Every entry's date parses, so no `toISOString` call throws. */
  predicate AllParse(entries: seq<HistoryEntry>) {
    forall i :: 0 <= i < |entries| ==> entries[i].instant.Some?
  }

  /** `dates.slice(0, 5)` when there are more than five. */
  function Truncate(dates: seq<Candidate>): seq<Candidate> {
    if |dates| > MAX_CANDIDATES then dates[..MAX_CANDIDATES] else dates
  }

  /**
   * How the lookup ends. `fetchHistory(gamertag, gamemode)` is the service's answer for the
   * player's match history in that mode.
   */
  function ScanHistory(event: Event, fetchHistory: (string, string) -> Fetched<seq<HistoryEntry>>): Result<seq<Candidate>, Fault> {
    match Validate(event)
    case Failure(e) => Failure(Rejected(e))
    case Success(q) =>
      var resp := fetchHistory(q.gamertag, q.gamemode);
      if resp.NoResponse? then Failure(Thrown(NO_RESPONSE_OBJECT))
      else if Failed(resp) then Failure(Rejected(Rejection(event.id, resp)))
      else if !AllParse(resp.body) then Failure(Thrown(INVALID_TIME))
      else Success(Truncate(Matching(resp.body, q.gamedate)))
  }

  // ---------------------------------------------------------------- the filter

  /** The filter distributes over concatenation: it keeps the service's order. */
  lemma {:induction false} MatchingAppend(a: seq<HistoryEntry>, b: seq<HistoryEntry>, instant: int)
    ensures Matching(a + b, instant) == Matching(a, instant) + Matching(b, instant)
    decreases |b|
  {
    if |b| == 0 {
      assert a + b == a;
    } else {
      var b' := b[..|b| - 1];
      assert (a + b)[..|a + b| - 1] == a + b';
      MatchingAppend(a, b', instant);
    }
  }

  /** Every candidate comes from an entry completed at exactly `instant`. */
  lemma {:induction false} MatchingSound(entries: seq<HistoryEntry>, instant: int)
    ensures forall c :: c in Matching(entries, instant) ==>
      exists j :: 0 <= j < |entries| && entries[j].instant == Some(instant) && c == CandidateOf(entries[j])
  {
    if |entries| > 0 {
      var prefix := entries[..|entries| - 1];
      MatchingSound(prefix, instant);
      forall c | c in Matching(entries, instant)
        ensures exists j :: 0 <= j < |entries| && entries[j].instant == Some(instant) && c == CandidateOf(entries[j])
      {
        if c in Matching(prefix, instant) {
          var j :| 0 <= j < |prefix| && prefix[j].instant == Some(instant) && c == CandidateOf(prefix[j]);
          assert entries[j] == prefix[j];
        } else {
          assert entries[|entries| - 1].instant == Some(instant) && c == CandidateOf(entries[|entries| - 1]);
        }
      }
    }
  }

  /** Every entry completed at exactly `instant` yields a candidate. */
  lemma {:induction false} MatchingComplete(entries: seq<HistoryEntry>, instant: int)
    ensures forall j :: 0 <= j < |entries| && entries[j].instant == Some(instant) ==> CandidateOf(entries[j]) in Matching(entries, instant)
  {
    if |entries| > 0 {
      var prefix := entries[..|entries| - 1];
      MatchingComplete(prefix, instant);
      forall j | 0 <= j < |entries| && entries[j].instant == Some(instant)
        ensures CandidateOf(entries[j]) in Matching(entries, instant)
      {
        if j < |prefix| {
          assert entries[j] == prefix[j];
        }
      }
    }
  }

  // ---------------------------------------------------------------- the lookup as a whole

  /**
   * A request failing a check ends with that check's 400 error whatever the service would answer:
   * the history is not consulted. The checks are made gamertag, then mode, then date.
   */
  lemma ValidationFirst(event: Event, f: (string, string) -> Fetched<seq<HistoryEntry>>, g: (string, string) -> Fetched<seq<HistoryEntry>>)
    ensures (event.gamertag.None? || event.gamertag == Some("")) ==>
      ScanHistory(event, f) == Failure(Rejected(ErrorEnvelope(400, event.id, Some(GAMERTAG_MISSING), None)))
    ensures event.gamertag.Some? && event.gamertag != Some("") && !SupportedMode(event.gamemode) ==>
      ScanHistory(event, f) == Failure(Rejected(ErrorEnvelope(400, event.id, Some(GAMEMODE_UNSUPPORTED), None)))
    ensures event.gamertag.Some? && event.gamertag != Some("") && SupportedMode(event.gamemode) && event.gamedate.None? ==>
      ScanHistory(event, f) == Failure(Rejected(ErrorEnvelope(400, event.id, Some(GAMEDATE_INVALID), None)))
    ensures Validate(event).Failure? ==> ScanHistory(event, f) == ScanHistory(event, g)
    ensures Validate(event).Success? <==>
      event.gamertag.Some? && event.gamertag != Some("") && SupportedMode(event.gamemode) && event.gamedate.Some?
  {
  }

  /**
   * A successful lookup returns at most five candidates: the first ones, in the service's order,
   * of those completed at exactly the requested instant; all of them when there are five or fewer.
   */
  lemma ScanHistoryCandidates(event: Event, fetchHistory: (string, string) -> Fetched<seq<HistoryEntry>>)
    requires ScanHistory(event, fetchHistory).Success?
    ensures var q := Validate(event).value;
      var resp := fetchHistory(q.gamertag, q.gamemode);
      var dates := ScanHistory(event, fetchHistory).value;
      var all := Matching(resp.body, q.gamedate);
      && resp.Answered? && resp.statusCode <= 200
      && |dates| <= MAX_CANDIDATES
      && |dates| == (if |all| < MAX_CANDIDATES then |all| else MAX_CANDIDATES)
      && dates == all[..|dates|]
      && forall c :: c in dates ==>
           exists j :: 0 <= j < |resp.body| && resp.body[j].instant == event.gamedate && c == CandidateOf(resp.body[j])
  {
    var q := Validate(event).value;
    var resp := fetchHistory(q.gamertag, q.gamemode);
    var all := Matching(resp.body, q.gamedate);
    MatchingSound(resp.body, q.gamedate);
    var dates := ScanHistory(event, fetchHistory).value;
    forall c | c in dates ensures c in all {
      var i :| 0 <= i < |dates| && dates[i] == c;
      assert all[i] == c;
    }
  }

  /** With every entry's date valid, fewer than six matching entries all become candidates. */
  lemma ScanHistoryKeepsAll(event: Event, fetchHistory: (string, string) -> Fetched<seq<HistoryEntry>>)
    requires ScanHistory(event, fetchHistory).Success?
    ensures var q := Validate(event).value;
      var resp := fetchHistory(q.gamertag, q.gamemode);
      |Matching(resp.body, q.gamedate)| <= MAX_CANDIDATES ==>
        forall j :: 0 <= j < |resp.body| && resp.body[j].instant == event.gamedate ==>
          CandidateOf(resp.body[j]) in ScanHistory(event, fetchHistory).value
  {
    var q := Validate(event).value;
    var resp := fetchHistory(q.gamertag, q.gamemode);
    MatchingComplete(resp.body, q.gamedate);
  }

  /**
   * Gamertag "X", mode "custom", seven history entries all completed at the requested instant:
   * the first five, in the service's order, are the candidates.
   */
  lemma SevenSameDayEntries(t: int, ids: seq<string>, d: string, fetchHistory: (string, string) -> Fetched<seq<HistoryEntry>>)
    requires |ids| == 7
    requires fetchHistory("X", "custom") == Answered(200, "", seq(7, i requires 0 <= i < 7 => HistoryEntry(ids[i], d, Some(t))))
    ensures ScanHistory(Event("job", None, Some("X"), Some("custom"), Some(t), None), fetchHistory) ==
      Success(seq(5, i requires 0 <= i < 5 => Candidate(ids[i], d)))
  {
    var entries := seq(7, i requires 0 <= i < 7 => HistoryEntry(ids[i], d, Some(t)));
    MatchingAll(entries, t);
    assert Truncate(Matching(entries, t)) == seq(5, i requires 0 <= i < 5 => Candidate(ids[i], d));
  }

  /** When every entry was completed at `instant`, each entry becomes a candidate. */
  lemma {:induction false} MatchingAll(entries: seq<HistoryEntry>, instant: int)
    requires forall i :: 0 <= i < |entries| ==> entries[i].instant == Some(instant)
    ensures Matching(entries, instant) == seq(|entries|, i requires 0 <= i < |entries| => CandidateOf(entries[i]))
  {
    if |entries| > 0 {
      MatchingAll(entries[..|entries| - 1], instant);
    }
  }

  /** Mode "ranked" is refused with a 400 before the history is fetched. */
  lemma RankedRefused(fetchHistory: (string, string) -> Fetched<seq<HistoryEntry>>, t: int)
    ensures ScanHistory(Event("job", None, Some("X"), Some("ranked"), Some(t), None), fetchHistory) ==
      Failure(Rejected(ErrorEnvelope(400, "job", Some(GAMEMODE_UNSUPPORTED), None)))
  {
  }

  // ---------------------------------------------------------------- the lookup, step by step

  /** The collecting loop: each entry's date is converted, and matching entries are pushed in order. */
  method CollectDates(entries: seq<HistoryEntry>, gamedate: int) returns (parsed: bool, dates: seq<Candidate>)
    ensures parsed <==> AllParse(entries)
    ensures parsed ==> dates == Matching(entries, gamedate)
  {
    dates := [];
    for k := 0 to |entries|
      invariant AllParse(entries[..k])
      invariant dates == Matching(entries[..k], gamedate)
    {
      var g := entries[k].instant;
      if g.None? {
        return false, dates;
      }
      TakeSnoc(entries, k);
      if g.value == gamedate {
        dates := dates + [CandidateOf(entries[k])];
      }
    }
    assert entries[..|entries|] == entries;
    parsed := true;
  }

  method GetPlayerMatchHistory(event: Event, fetchHistory: (string, string) -> Fetched<seq<HistoryEntry>>)
    returns (r: Result<seq<Candidate>, Fault>)
    ensures r == ScanHistory(event, fetchHistory)
  {
    var gamertag := event.gamertag;
    if gamertag.None? || gamertag.value == "" {
      return Failure(Rejected(InvalidRequest(event.id, GAMERTAG_MISSING)));
    }
    var gamemode := event.gamemode;
    if !(gamemode == Some("custom") || gamemode == Some("customlocal")) {
      return Failure(Rejected(InvalidRequest(event.id, GAMEMODE_UNSUPPORTED)));
    }
    if event.gamedate.None? {
      return Failure(Rejected(InvalidRequest(event.id, GAMEDATE_INVALID)));
    }
    var gamedate := event.gamedate.value;
    var resp := fetchHistory(gamertag.value, gamemode.value);
    if resp.NoResponse? {
      return Failure(Thrown(NO_RESPONSE_OBJECT));
    }
    if Failed(resp) {
      return Failure(Rejected(Rejection(event.id, resp)));
    }
    var parsed, dates := CollectDates(resp.body, gamedate);
    if !parsed {
      return Failure(Thrown(INVALID_TIME));
    }
    if |dates| > 5 {
      dates := dates[..5];
    }
    r := Success(dates);
  }
}
