/** Facts about sequences viewed as sets, shared by the team-matching and grouping proofs. */
module Seqs {

  /** The elements of a sequence, forgetting order and multiplicity. */
  function Elems<T>(s: seq<T>): set<T> {
    set x | x in s
  }

  predicate Distinct<T(==)>(s: seq<T>) {
    forall i, j :: 0 <= i < j < |s| ==> s[i] != s[j]
  }

  /** A sequence has at most as many distinct elements as it has positions, and exactly as many when it has no repeats. */
  lemma {:induction false} ElemsCard<T>(s: seq<T>)
    ensures |Elems(s)| <= |s|
    ensures Distinct(s) ==> |Elems(s)| == |s|
  {
    if |s| > 0 {
      var t := s[..|s| - 1];
      var last := s[|s| - 1];
      ElemsCard(t);
      assert s == t + [last];
      assert Elems(s) == Elems(t) + {last};
      if Distinct(s) {
        assert Distinct(t);
        forall x | x in Elems(t) ensures x != last {
          var i :| 0 <= i < |t| && t[i] == x;
          assert s[i] == x;
        }
      }
    }
  }

  lemma TakeSnoc<T>(s: seq<T>, i: nat)
    requires i < |s|
    ensures s[..i + 1] == s[..i] + [s[i]]
  {
  }

  /** A subset that is at least as large as its superset is the whole superset. */
  lemma SubsetCard<T>(a: set<T>, b: set<T>)
    requires a <= b && |b| <= |a|
    ensures a == b
  {
    assert b == a + (b - a);
    assert |b - a| == 0;
  }
}
