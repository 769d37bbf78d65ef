/**
 * The request handler: a request naming a match is answered with that match's record; otherwise
 * the player's history is searched, every candidate is looked up, the candidates are compared
 * with the declared rosters, and the kept records, or a "no games" error, are reported.
 */
module Handler {
  import opened Wrappers
  import opened Upstream
  import opened Records
  import opened Normalizer
  import opened History
  import opened Correlator

  const NO_GAMES := "No games found matching the parameters provided"

  /** The `data` of a completed reply: one record on the direct path, a list on the history path. */
  datatype Payload = One(record: MatchInfo) | Many(records: seq<MatchInfo>)

  /** What reaches the caller. */
  datatype Reply =
    | Completed(jobRunId: string, data: Payload)  // callback(null, {statusCode: 200, status: "completed", error: null, ...})
    | Errored(envelope: ErrorEnvelope)            // callback(envelope, null): a rejection or the "no games" error
    | CallbackError(exception: string)            // callback(exception, null): an exception thrown inside the promise chain
    | NoReply(exception: string)                  // an exception escapes in an HTTP callback; the callback is never called

  /** `event.data.matchid` is truthy: present and not the empty string. */
  predicate DirectPath(event: Event) {
    event.matchId.Some? && event.matchId.value != ""
  }

  /** The "no games" error object: status 400, no `data`, the message in `error`. */
  function NoGames(jobRunId: string): ErrorEnvelope {
    ErrorEnvelope(400, jobRunId, None, Some(NO_GAMES))
  }

  /** The check on the compared list: an empty list is the "no games" error, any other is reported as completed. */
  function Classify(jobRunId: string, matches: seq<MatchInfo>): Reply {
    if |matches| == 0 then Errored(NoGames(jobRunId)) else Completed(jobRunId, Many(matches))
  }

  /** A step's failure as the caller sees it: a rejection reaches the callback, a thrown exception does not. */
  function FaultReply(f: Fault): Reply {
    match f
    case Rejected(e) => Errored(e)
    case Thrown(x) => NoReply(x)
  }

  /** The values of all the results, in order, or the first failure among them. */
  function Gather<T>(results: seq<Result<T, Fault>>): Result<seq<T>, Fault> {
    if |results| == 0 then Success([])
    else
      match Gather(results[..|results| - 1])
      case Failure(f) => Failure(f)
      case Success(values) =>
        match results[|results| - 1]
        case Failure(f) => Failure(f)
        case Success(v) => Success(values + [v])
  }

  /** Each candidate's lookup, in candidate order. `fetchMatch(id)` is the service's answer for the match with that id. */
  function LookUps(event: Event, candidates: seq<Candidate>, fetchMatch: string -> Fetched<MatchBody>): seq<Result<MatchInfo, Fault>> {
    seq(|candidates|, i requires 0 <= i < |candidates| => Normalize(event, Some(candidates[i]), fetchMatch(candidates[i].matchId)))
  }

  /** How a request ends. */
  function Outcome(event: Event, fetchMatch: string -> Fetched<MatchBody>,
                   fetchHistory: (string, string) -> Fetched<seq<HistoryEntry>>): Reply
  {
    if DirectPath(event) then
      match Normalize(event, None, fetchMatch(event.matchId.value))
      case Success(m) => Completed(event.id, One(m))
      case Failure(f) => FaultReply(f)
    else
      match ScanHistory(event, fetchHistory)
      case Failure(f) => FaultReply(f)
      case Success(candidates) =>
        match Gather(LookUps(event, candidates, fetchMatch))
        case Failure(f) => FaultReply(f)
        case Success(records) =>
          match Correlate(records)
          case Failure(x) => CallbackError(x)
          case Success(matches) => Classify(event.id, matches)
  }

  // ---------------------------------------------------------------- the looked-up records

  /** All results succeed exactly when their values are gathered, one per result and in order. */
  lemma {:induction false} GatherValues<T>(results: seq<Result<T, Fault>>)
    ensures Gather(results).Success? <==> forall i :: 0 <= i < |results| ==> results[i].Success?
    ensures Gather(results).Success? ==>
      |Gather(results).value| == |results| &&
      forall i :: 0 <= i < |results| ==> results[i] == Success(Gather(results).value[i])
  {
    if |results| > 0 {
      var prefix := results[..|results| - 1];
      GatherValues(prefix);
      assert forall i :: 0 <= i < |prefix| ==> prefix[i] == results[i];
    }
  }

  /** A failure of the whole is the failure of the first result that fails. */
  lemma {:induction false} GatherFirstFailure<T>(results: seq<Result<T, Fault>>)
    requires Gather(results).Failure?
    ensures exists i :: 0 <= i < |results| && results[i] == Failure(Gather(results).error) &&
                        forall j :: 0 <= j < i ==> results[j].Success?
  {
    var prefix := results[..|results| - 1];
    assert forall i :: 0 <= i < |prefix| ==> prefix[i] == results[i];
    if Gather(prefix).Failure? {
      GatherFirstFailure(prefix);
      var i :| 0 <= i < |prefix| && prefix[i] == Failure(Gather(prefix).error) && forall j :: 0 <= j < i ==> prefix[j].Success?;
      assert results[i] == Failure(Gather(results).error);
    } else {
      GatherValues(prefix);
      assert results[|results| - 1] == Failure(Gather(results).error);
    }
  }

  /** Every looked-up record carries its candidate's match id and date and the request's declared rosters. */
  lemma LookUpsTagged(event: Event, candidates: seq<Candidate>, fetchMatch: string -> Fetched<MatchBody>)
    requires Gather(LookUps(event, candidates, fetchMatch)).Success?
    ensures var records := Gather(LookUps(event, candidates, fetchMatch)).value;
      && |records| == |candidates|
      && forall i :: 0 <= i < |records| ==>
           records[i].history == Some(HistoryTag(candidates[i].completedDate, event.players)) &&
           records[i].matchId == candidates[i].matchId
  {
    var lookups := LookUps(event, candidates, fetchMatch);
    GatherValues(lookups);
    forall i | 0 <= i < |candidates|
      ensures Gather(lookups).value[i].history == Some(HistoryTag(candidates[i].completedDate, event.players))
      ensures Gather(lookups).value[i].matchId == candidates[i].matchId
    {
      assert lookups[i] == Normalize(event, Some(candidates[i]), fetchMatch(candidates[i].matchId));
    }
  }

  /** A rejected lookup reports the generic message in `data`. */
  lemma LookUpRejection(event: Event, candidate: Candidate, resp: Fetched<MatchBody>)
    requires Normalize(event, Some(candidate), resp).Failure? && Normalize(event, Some(candidate), resp).error.Rejected?
    ensures Normalize(event, Some(candidate), resp).error.envelope.data == Some(API_ERROR)
  {
  }

  // ---------------------------------------------------------------- what the caller receives

  /**
   * A request naming a match is answered from that match alone: the history is never consulted,
   * a failing status is reported with the generic message, and a success carries the record
   * without the history-only fields.
   */
  lemma DirectOutcome(event: Event, fetchMatch: string -> Fetched<MatchBody>,
                      fetchHistory: (string, string) -> Fetched<seq<HistoryEntry>>,
                      otherHistory: (string, string) -> Fetched<seq<HistoryEntry>>)
    requires DirectPath(event)
    ensures Outcome(event, fetchMatch, fetchHistory) == Outcome(event, fetchMatch, otherHistory)
    ensures var resp := fetchMatch(event.matchId.value);
      && (resp.NoResponse? ==> Outcome(event, fetchMatch, fetchHistory).NoReply?)
      && (resp.Answered? && resp.statusCode > 200 ==>
            Outcome(event, fetchMatch, fetchHistory) == Errored(ErrorEnvelope(resp.statusCode, event.id, Some(API_ERROR), None)))
      && (Outcome(event, fetchMatch, fetchHistory).Completed? <==>
            resp.Answered? && resp.statusCode <= 200 && |TeamOrder(resp.body.playerStats)| <= |resp.body.teamStats|)
    ensures var resp := fetchMatch(event.matchId.value);
      resp.Answered? && resp.statusCode <= 200 && |resp.body.teamStats| < |TeamOrder(resp.body.playerStats)| ==>
        Outcome(event, fetchMatch, fetchHistory).NoReply?
    ensures Outcome(event, fetchMatch, fetchHistory).Completed? ==>
      && Outcome(event, fetchMatch, fetchHistory) == Completed(event.id, One(Normalize(event, None, fetchMatch(event.matchId.value)).value))
      && var data := Outcome(event, fetchMatch, fetchHistory).data;
         data.record.matchId == event.matchId.value && data.record.history.None?
  {
    NormalizeSucceeds(event, None, fetchMatch(event.matchId.value));
  }

  /** A request without a match id that fails a check gets the check's 400 error, whatever either service would answer. */
  lemma InvalidRequestOutcome(event: Event, fetchMatch: string -> Fetched<MatchBody>,
                              fetchHistory: (string, string) -> Fetched<seq<HistoryEntry>>,
                              otherMatch: string -> Fetched<MatchBody>,
                              otherHistory: (string, string) -> Fetched<seq<HistoryEntry>>)
    requires !DirectPath(event) && Validate(event).Failure?
    ensures Outcome(event, fetchMatch, fetchHistory) == Errored(Validate(event).error)
    ensures Outcome(event, fetchMatch, fetchHistory) == Outcome(event, otherMatch, otherHistory)
    ensures Outcome(event, fetchMatch, fetchHistory).envelope.statusCode == 400
  {
  }

  /**
   * A completed reply on the history path holds one to five records, each kept by the roster
   * comparison and each the lookup of a candidate found in the history.
   */
  lemma CompletedFromHistory(event: Event, fetchMatch: string -> Fetched<MatchBody>,
                             fetchHistory: (string, string) -> Fetched<seq<HistoryEntry>>)
    requires !DirectPath(event)
    requires Outcome(event, fetchMatch, fetchHistory).Completed?
    ensures var data := Outcome(event, fetchMatch, fetchHistory).data;
      var candidates := ScanHistory(event, fetchHistory).value;
      && ScanHistory(event, fetchHistory).Success?
      && data.Many?
      && 1 <= |data.records| <= MAX_CANDIDATES
      && forall m :: m in data.records ==>
           && Declared(m).Some? && Retained(m)
           && exists i :: 0 <= i < |candidates| && Normalize(event, Some(candidates[i]), fetchMatch(candidates[i].matchId)) == Success(m)
  {
    var candidates := ScanHistory(event, fetchHistory).value;
    ScanHistoryCandidates(event, fetchHistory);
    var lookups := LookUps(event, candidates, fetchMatch);
    var records := Gather(lookups).value;
    GatherValues(lookups);
    FilterMembers(records);
    forall m | m in Filter(records)
      ensures exists i :: 0 <= i < |candidates| && Normalize(event, Some(candidates[i]), fetchMatch(candidates[i].matchId)) == Success(m)
    {
      var i :| 0 <= i < |records| && records[i] == m;
      assert lookups[i] == Normalize(event, Some(candidates[i]), fetchMatch(candidates[i].matchId));
    }
  }

  /**
   * On the history path the reply is completed exactly when the search, every lookup and the
   * comparison succeed and the comparison keeps some record; it then reports every kept record,
   * in candidate order.
   */
  lemma HistoryCompletedOutcome(event: Event, fetchMatch: string -> Fetched<MatchBody>,
                                fetchHistory: (string, string) -> Fetched<seq<HistoryEntry>>)
    requires !DirectPath(event)
    ensures var reply := Outcome(event, fetchMatch, fetchHistory);
      var search := ScanHistory(event, fetchHistory);
      reply.Completed? <==>
        && search.Success?
        && Gather(LookUps(event, search.value, fetchMatch)).Success?
        && Correlate(Gather(LookUps(event, search.value, fetchMatch)).value).Success?
        && |Correlate(Gather(LookUps(event, search.value, fetchMatch)).value).value| > 0
    ensures var reply := Outcome(event, fetchMatch, fetchHistory);
      var search := ScanHistory(event, fetchHistory);
      reply.Completed? ==>
        reply == Completed(event.id, Many(Correlate(Gather(LookUps(event, search.value, fetchMatch)).value).value))
  {
  }

  /**
   * The "no games" error, the only error without `data`, is the reply exactly when the history
   * was searched, every candidate was looked up, and the comparison kept none of them.
   */
  lemma NoGamesOutcome(event: Event, fetchMatch: string -> Fetched<MatchBody>,
                       fetchHistory: (string, string) -> Fetched<seq<HistoryEntry>>)
    ensures var reply := Outcome(event, fetchMatch, fetchHistory);
      (reply.Errored? && reply.envelope.data.None?) <==>
        && !DirectPath(event)
        && ScanHistory(event, fetchHistory).Success?
        && Gather(LookUps(event, ScanHistory(event, fetchHistory).value, fetchMatch)).Success?
        && Correlate(Gather(LookUps(event, ScanHistory(event, fetchHistory).value, fetchMatch)).value) == Success([])
    ensures var reply := Outcome(event, fetchMatch, fetchHistory);
      reply.Errored? && reply.envelope.data.None? ==> reply == Errored(ErrorEnvelope(400, event.id, None, Some(NO_GAMES)))
  {
    if !DirectPath(event) && ScanHistory(event, fetchHistory).Failure? {
      var f := ScanHistory(event, fetchHistory).error;
      if f.Rejected? {
        ScanHistoryRejection(event, fetchHistory);
      }
    }
    if !DirectPath(event) && ScanHistory(event, fetchHistory).Success? {
      var candidates := ScanHistory(event, fetchHistory).value;
      var lookups := LookUps(event, candidates, fetchMatch);
      if Gather(lookups).Failure? && Gather(lookups).error.Rejected? {
        GatherFirstFailure(lookups);
        var i :| 0 <= i < |lookups| && lookups[i] == Failure(Gather(lookups).error) && forall j :: 0 <= j < i ==> lookups[j].Success?;
        LookUpRejection(event, candidates[i], fetchMatch(candidates[i].matchId));
      }
    }
  }

  /** Every rejection of the history lookup carries `data`. */
  lemma ScanHistoryRejection(event: Event, fetchHistory: (string, string) -> Fetched<seq<HistoryEntry>>)
    requires ScanHistory(event, fetchHistory).Failure? && ScanHistory(event, fetchHistory).error.Rejected?
    ensures ScanHistory(event, fetchHistory).error.envelope.data.Some?
  {
  }

  // ---------------------------------------------------------------- the handler, step by step

  /** The fan-out: each candidate is looked up in turn, stopping at the first failure. */
  method LookUpCandidates(event: Event, candidates: seq<Candidate>, fetchMatch: string -> Fetched<MatchBody>)
    returns (r: Result<seq<MatchInfo>, Fault>)
    ensures r == Gather(LookUps(event, candidates, fetchMatch))
  {
    ghost var lookups := LookUps(event, candidates, fetchMatch);
    var matchList: seq<MatchInfo> := [];
    for index := 0 to |candidates|
      invariant Gather(lookups[..index]) == Success(matchList)
    {
      var singlematch := SingleMatchResults(event, Some(candidates[index]), fetchMatch(candidates[index].matchId));
      GatherSnoc(lookups, index);
      if singlematch.Failure? {
        GatherFailureKept(lookups, index + 1);
        return Failure(singlematch.error);
      }
      matchList := matchList + [singlematch.value];
    }
    assert lookups[..|candidates|] == lookups;
    r := Success(matchList);
  }

  /** One more result: gathering stops at it when it fails and appends its value otherwise. */
  lemma GatherSnoc<T>(results: seq<Result<T, Fault>>, i: nat)
    requires i < |results| && Gather(results[..i]).Success?
    ensures Gather(results[..i + 1]) ==
      match results[i]
      case Failure(f) => Failure(f)
      case Success(v) => Success(Gather(results[..i]).value + [v])
  {
    assert results[..i + 1][..i] == results[..i];
  }

  /** Once a prefix fails, the whole fails the same way: later results are not looked at. */
  lemma {:induction false} GatherFailureKept<T>(results: seq<Result<T, Fault>>, i: nat)
    requires i <= |results| && Gather(results[..i]).Failure?
    ensures Gather(results) == Gather(results[..i])
    decreases |results| - i
  {
    if i < |results| {
      assert results[..i + 1][..i] == results[..i];
      GatherFailureKept(results, i + 1);
    } else {
      assert results[..i] == results;
    }
  }

  method Handle(event: Event, fetchMatch: string -> Fetched<MatchBody>,
                fetchHistory: (string, string) -> Fetched<seq<HistoryEntry>>)
    returns (reply: Reply)
    ensures reply == Outcome(event, fetchMatch, fetchHistory)
  {
    if event.matchId.Some? && event.matchId.value != "" {
      var result := SingleMatchResults(event, None, fetchMatch(event.matchId.value));
      if result.Success? {
        return Completed(event.id, One(result.value));
      }
      return FaultReply(result.error);
    }
    var history := GetPlayerMatchHistory(event, fetchHistory);
    if history.Failure? {
      return FaultReply(history.error);
    }
    var all := LookUpCandidates(event, history.value, fetchMatch);
    if all.Failure? {
      return FaultReply(all.error);
    }
    var matches := TeamGamertagCompare(all.value);
    if matches.Failure? {
      return CallbackError(matches.error);
    }
    if |matches.value| == 0 {
      reply := Errored(NoGames(event.id));
    } else {
      reply := Completed(event.id, Many(matches.value));
    }
  }
}
