/**
 * The roster comparison that picks, among the candidate matches found in a player's history, the
 * ones whose teams are the teams the request declared. A candidate is kept when every declared
 * roster has an actual team of the same size all of whose members are in that roster.
 */
module Correlator {
  import opened Wrappers
  import opened Seqs
  import opened Records

  /** `Object.keys` applied to a record whose `TeamsFromContract` is undefined. */
  const NOT_AN_OBJECT := "TypeError: Cannot convert undefined or null to object"

  /** The rosters the request declared, carried on the record as `TeamsFromContract`. */
  function Declared(m: MatchInfo): Option<seq<seq<string>>> {
    if m.history.Some? then m.history.value.teamsFromContract else None
  }

  predicate AllDeclared(ms: seq<MatchInfo>) {
    forall i :: 0 <= i < |ms| ==> Declared(ms[i]).Some?
  }

  /** `areEqual`: the same length, and every actual member occurs in the declared roster. */
  predicate AreEqual(actual: seq<string>, declared: seq<string>) {
    |actual| == |declared| && forall i :: 0 <= i < |actual| ==> actual[i] in declared
  }

  /** Some actual team is equal, in the sense above, to the declared roster `d`. */
  predicate HasCounterpart(teams: seq<TeamEntry>, d: seq<string>) {
    exists s :: 0 <= s < |teams| && AreEqual(teams[s].members, d)
  }

  /** `matchfound` after the declared rosters are visited: one for each roster with a counterpart. */
  function CountFound(declared: seq<seq<string>>, teams: seq<TeamEntry>): (c: nat)
    ensures c <= |declared|
  {
    if |declared| == 0 then 0
    else CountFound(declared[..|declared| - 1], teams) + if HasCounterpart(teams, declared[|declared| - 1]) then 1 else 0
  }

  /** The test `matchfound == Object.keys(TeamsFromContract).length`. */
  predicate Retained(m: MatchInfo)
    requires Declared(m).Some?
  {
    CountFound(Declared(m).value, m.teams) == |Declared(m).value|
  }

  /** The kept records, in input order. */
  function Filter(ms: seq<MatchInfo>): seq<MatchInfo>
    requires AllDeclared(ms)
  {
    if |ms| == 0 then []
    else
      var last := ms[|ms| - 1];
      Filter(ms[..|ms| - 1]) + if Retained(last) then [last] else []
  }

  /** How the comparison ends: a record without declared rosters makes `Object.keys` throw. */
  function Correlate(ms: seq<MatchInfo>): Result<seq<MatchInfo>, string> {
    if AllDeclared(ms) then Success(Filter(ms)) else Failure(NOT_AN_OBJECT)
  }

  // ---------------------------------------------------------------- retention

  /** The count reaches the number of declared rosters exactly when each of them has a counterpart. */
  lemma {:induction false} CountFoundAll(declared: seq<seq<string>>, teams: seq<TeamEntry>)
    ensures CountFound(declared, teams) == |declared| <==>
      forall x :: 0 <= x < |declared| ==> HasCounterpart(teams, declared[x])
  {
    if |declared| > 0 {
      var prefix := declared[..|declared| - 1];
      CountFoundAll(prefix, teams);
      assert forall x :: 0 <= x < |prefix| ==> prefix[x] == declared[x];
    }
  }

  /** A record is kept if and only if every declared roster has a counterpart among its teams. */
  lemma RetainedIff(m: MatchInfo)
    requires Declared(m).Some?
    ensures Retained(m) <==>
      forall x :: 0 <= x < |Declared(m).value| ==> exists s :: 0 <= s < |m.teams| && AreEqual(m.teams[s].members, Declared(m).value[x])
  {
    CountFoundAll(Declared(m).value, m.teams);
  }

  /** Keeping distributes over concatenation: the kept records stay in input order. */
  lemma {:induction false} FilterAppend(a: seq<MatchInfo>, b: seq<MatchInfo>)
    requires AllDeclared(a) && AllDeclared(b)
    ensures AllDeclared(a + b)
    ensures Filter(a + b) == Filter(a) + Filter(b)
    decreases |b|
  {
    assert forall i :: 0 <= i < |a + b| ==> (a + b)[i] == if i < |a| then a[i] else b[i - |a|];
    if |b| == 0 {
      assert a + b == a;
    } else {
      var b' := b[..|b| - 1];
      assert (a + b)[..|a + b| - 1] == a + b';
      assert AllDeclared(b');
      FilterAppend(a, b');
    }
  }

  /** A single record is kept exactly when it is retained. */
  lemma FilterSingle(m: MatchInfo)
    requires Declared(m).Some?
    ensures AllDeclared([m])
    ensures Filter([m]) == if Retained(m) then [m] else []
  {
  }

  /** Every kept record is an input that is retained, and every retained input is kept. */
  lemma {:induction false} FilterMembers(ms: seq<MatchInfo>)
    requires AllDeclared(ms)
    ensures forall m :: m in Filter(ms) ==> m in ms && Retained(m)
    ensures forall i :: 0 <= i < |ms| && Retained(ms[i]) ==> ms[i] in Filter(ms)
    ensures |Filter(ms)| <= |ms|
  {
    if |ms| > 0 {
      var prefix := ms[..|ms| - 1];
      assert AllDeclared(prefix);
      FilterMembers(prefix);
      forall i | 0 <= i < |ms| && Retained(ms[i]) ensures ms[i] in Filter(ms) {
        if i < |prefix| {
          assert ms[i] == prefix[i];
        }
      }
    }
  }

  // ---------------------------------------------------------------- what the comparison depends on

  /** The comparison looks at rosters only as multisets: reordering either roster does not change it. */
  lemma AreEqualPermutation(a: seq<string>, a': seq<string>, d: seq<string>, d': seq<string>)
    requires multiset(a) == multiset(a') && multiset(d) == multiset(d')
    ensures AreEqual(a, d) <==> AreEqual(a', d')
  {
    assert |a| == |multiset(a)| == |a'|;
    assert |d| == |multiset(d)| == |d'|;
    forall x ensures x in a <==> x in a' {
      assert x in a <==> x in multiset(a);
      assert x in a' <==> x in multiset(a');
    }
    forall x ensures x in d <==> x in d' {
      assert x in d <==> x in multiset(d);
      assert x in d' <==> x in multiset(d');
    }
    if AreEqual(a, d) {
      forall i | 0 <= i < |a'| ensures a'[i] in d' {
        assert a'[i] in a;
      }
    }
    if AreEqual(a', d') {
      forall i | 0 <= i < |a| ensures a[i] in d {
        assert a[i] in a';
      }
    }
  }

  /** `m'` is `m` with the members of each team and of each declared roster possibly reordered. */
  predicate RostersReordered(m: MatchInfo, m': MatchInfo)
    requires Declared(m).Some? && Declared(m').Some?
  {
    && |m.teams| == |m'.teams|
    && (forall s :: 0 <= s < |m.teams| ==> multiset(m.teams[s].members) == multiset(m'.teams[s].members))
    && |Declared(m).value| == |Declared(m').value|
    && (forall x :: 0 <= x < |Declared(m).value| ==> multiset(Declared(m).value[x]) == multiset(Declared(m').value[x]))
  }

  /** Reordering the gamertags inside any actual or declared roster does not change whether a record is kept. */
  lemma RetainedPermutation(m: MatchInfo, m': MatchInfo)
    requires Declared(m).Some? && Declared(m').Some?
    requires RostersReordered(m, m')
    ensures Retained(m) <==> Retained(m')
  {
    var d, d' := Declared(m).value, Declared(m').value;
    forall x | 0 <= x < |d| ensures HasCounterpart(m.teams, d[x]) <==> HasCounterpart(m'.teams, d'[x]) {
      forall s | 0 <= s < |m.teams| ensures AreEqual(m.teams[s].members, d[x]) <==> AreEqual(m'.teams[s].members, d'[x]) {
        AreEqualPermutation(m.teams[s].members, m'.teams[s].members, d[x], d'[x]);
      }
    }
    RetainedIff(m);
    RetainedIff(m');
  }

  /**
   * For an actual team without repeated gamertags, the comparison is set equality with equal
   * sizes; the check runs from the actual team to the declared roster only.
   */
  lemma AreEqualIsSetEquality(a: seq<string>, d: seq<string>)
    requires Distinct(a)
    ensures AreEqual(a, d) <==> |a| == |d| && Elems(a) == Elems(d)
  {
    ElemsCard(a);
    ElemsCard(d);
    if AreEqual(a, d) {
      assert Elems(a) <= Elems(d);
      SubsetCard(Elems(a), Elems(d));
    }
    if |a| == |d| && Elems(a) == Elems(d) {
      forall i | 0 <= i < |a| ensures a[i] in d {
        assert a[i] in Elems(a);
      }
    }
  }

  /**
   * A record is kept when every declared roster holds the same gamertags as some actual team,
   * whatever the order of the rosters and of the gamertags inside them.
   */
  lemma IdenticalRostersRetained(m: MatchInfo)
    requires Declared(m).Some?
    requires forall x :: 0 <= x < |Declared(m).value| ==>
      exists s :: 0 <= s < |m.teams| && multiset(Declared(m).value[x]) == multiset(m.teams[s].members)
    ensures Retained(m)
  {
    var d := Declared(m).value;
    forall x | 0 <= x < |d| ensures HasCounterpart(m.teams, d[x]) {
      var s :| 0 <= s < |m.teams| && multiset(d[x]) == multiset(m.teams[s].members);
      var t := m.teams[s].members;
      AreEqualPermutation(t, t, t, d[x]);
      assert AreEqual(t, t);
    }
    CountFoundAll(d, m.teams);
  }

  // ---------------------------------------------------------------- examples

  /** The record with the given teams and declared rosters, as the history path builds it. */
  function WithRosters(teams: seq<TeamEntry>, declared: seq<seq<string>>): MatchInfo {
    MatchInfo(true, true, "m", "", "", "", teams, Some(HistoryTag("d", Some(declared))))
  }

  /** Neither `[B, A]` nor `[E, F]` equals the declared roster `[C, D]`. */
  lemma NoTeamIsCD(teams: seq<TeamEntry>)
    requires teams == [TeamEntry("Team0", 0, 1, "", ["B", "A"]), TeamEntry("Team1", 0, 2, "", ["E", "F"])]
    ensures !HasCounterpart(teams, ["C", "D"])
  {
    assert teams[0].members[0] !in ["C", "D"];
    assert teams[1].members[0] !in ["C", "D"];
  }

  /** Declared `[A, B]` and `[C, D]` against actual `Team0 = [B, A]`, `Team1 = [E, F]`: the record is dropped. */
  lemma SecondRosterMissing(m: MatchInfo)
    requires m == WithRosters([TeamEntry("Team0", 0, 1, "", ["B", "A"]), TeamEntry("Team1", 0, 2, "", ["E", "F"])],
                              [["A", "B"], ["C", "D"]])
    ensures Correlate([m]) == Success([])
  {
    NoTeamIsCD(m.teams);
    assert Declared(m).value[1] == ["C", "D"];
    RetainedIff(m);
    FilterSingle(m);
  }

  /** Two identical declared rosters are both matched by one actual team: the pairing is not one-to-one. */
  lemma OneTeamCountedTwice()
    ensures var m := WithRosters([TeamEntry("Team0", 0, 1, "", ["A", "B"])], [["A", "B"], ["B", "A"]]);
      Correlate([m]) == Success([m])
  {
    var m := WithRosters([TeamEntry("Team0", 0, 1, "", ["A", "B"])], [["A", "B"], ["B", "A"]]);
    var d := Declared(m).value;
    assert AreEqual(m.teams[0].members, d[0]);
    assert AreEqual(m.teams[0].members, d[1]);
    RetainedIff(m);
    FilterSingle(m);
  }

  /** An actual team with a repeated gamertag can match a declared roster it does not equal as a set. */
  lemma RepeatedGamertagMatches()
    ensures AreEqual(["A", "A"], ["A", "B"]) && Elems(["A", "A"]) != Elems(["A", "B"])
  {
    assert "B" !in Elems(["A", "A"]);
    assert "B" in Elems(["A", "B"]);
  }

  // ---------------------------------------------------------------- the comparison, step by step

  /** The two inner loops for one record: for each declared roster, look for an equal team and stop at the first. */
  method CountMatchedRosters(declared: seq<seq<string>>, teams: seq<TeamEntry>) returns (matchfound: nat)
    ensures matchfound == CountFound(declared, teams)
  {
    matchfound := 0;
    for x := 0 to |declared|
      invariant matchfound == CountFound(declared[..x], teams)
    {
      assert declared[..x + 1][..x] == declared[..x];
      var s := 0;
      while s < |teams|
        invariant 0 <= s <= |teams|
        invariant forall j :: 0 <= j < s ==> !AreEqual(teams[j].members, declared[x])
        invariant matchfound == CountFound(declared[..x], teams)
      {
        var areEqual := AreEqual(teams[s].members, declared[x]);
        if areEqual {
          matchfound := matchfound + 1;
          break;
        }
        s := s + 1;
      }
    }
    assert declared[..|declared|] == declared;
  }

  method TeamGamertagCompare(matches: seq<MatchInfo>) returns (r: Result<seq<MatchInfo>, string>)
    ensures r == Correlate(matches)
  {
    var finalmatches: seq<MatchInfo> := [];
    for l := 0 to |matches|
      invariant AllDeclared(matches[..l])
      invariant finalmatches == Filter(matches[..l])
    {
      var teamsFromContract := Declared(matches[l]);
      if teamsFromContract.None? {
        return Failure(NOT_AN_OBJECT);
      }
      var matchfound := CountMatchedRosters(teamsFromContract.value, matches[l].teams);
      TakeSnoc(matches, l);
      assert AllDeclared(matches[..l + 1]);
      if matchfound == |teamsFromContract.value| {
        finalmatches := finalmatches + [matches[l]];
      }
    }
    assert matches[..|matches|] == matches;
    r := Success(finalmatches);
  }
}
