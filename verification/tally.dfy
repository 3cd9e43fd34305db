/**
  The vote tally of the round resolver: the most frequent target among the
  pending votes, ties going to the target seen first. This is what
  `Counter(votes).most_common(1)[0]` yields, because a Counter keeps its keys
  in first-insertion order and picking the maximum keeps the first of equal
  counts.
 */
module Tally {

  /** How many votes name `x`. */
  function Occ(votes: seq<int>, x: int): nat {
    multiset(votes)[x]
  }

  /** Position of the first vote for `x`. */
  function FirstIndex(votes: seq<int>, x: int): (i: nat)
    requires x in votes
    ensures i < |votes| && votes[i] == x
    ensures forall j :: 0 <= j < i ==> votes[j] != x
  {
    if votes[0] == x then 0 else 1 + FirstIndex(votes[1..], x)
  }

  /** `(t, n)` is the most common vote: `t` got `n` votes, no target got
      more, and every target seen before `t` got fewer. */
  ghost predicate IsMostCommon(votes: seq<int>, t: int, n: nat) {
    && t in votes
    && n == Occ(votes, t)
    && (forall x :: Occ(votes, x) <= n)
    && (forall j :: 0 <= j < FirstIndex(votes, t) ==> Occ(votes, votes[j]) < n)
  }

  /** Position of the first vote whose target has the highest count among
      the first `i` votes. */
  function Leader(votes: seq<int>, i: nat): (k: nat)
    requires 0 < i <= |votes|
    ensures k < i
    ensures forall j :: 0 <= j < i ==> Occ(votes, votes[j]) <= Occ(votes, votes[k])
    ensures forall j :: 0 <= j < k ==> Occ(votes, votes[j]) < Occ(votes, votes[k])
  {
    if i == 1 then 0
    else
      var k := Leader(votes, i - 1);
      if Occ(votes, votes[i - 1]) > Occ(votes, votes[k]) then i - 1 else k
  }

  /** The winning target of a non-empty vote list and its vote count. */
  function MostCommon(votes: seq<int>): (r: (int, nat))
    requires votes != []
    ensures IsMostCommon(votes, r.0, r.1)
  {
    var k := Leader(votes, |votes|);
    var t := votes[k];
    assert FirstIndex(votes, t) <= k;
    forall x ensures Occ(votes, x) <= Occ(votes, t) {
      if x in votes {
        var j := FirstIndex(votes, x);
        assert Occ(votes, votes[j]) <= Occ(votes, t);
      }
    }
    (t, Occ(votes, t))
  }

  /** The tally rule determines its winner: any two answers that satisfy it
      agree. So `MostCommon` is the only reading of "most frequent, first
      seen wins". */
  lemma {:induction false} MostCommonUnique(votes: seq<int>, t: int, n: nat, t': int, n': nat)
    requires IsMostCommon(votes, t, n) && IsMostCommon(votes, t', n')
    ensures t == t' && n == n'
  {
    assert Occ(votes, t') <= n && Occ(votes, t) <= n';
    var i, i' := FirstIndex(votes, t), FirstIndex(votes, t');
    assert Occ(votes, votes[i]) == n && Occ(votes, votes[i']) == n';
    assert i == i';
  }

  /** Six alive players voting 2, 2, 2, 5, 5, 6: player 2 wins with 3 votes. */
  lemma ClearWinner()
    ensures MostCommon([2, 2, 2, 5, 5, 6]) == (2, 3)
  {
    var v := [2, 2, 2, 5, 5, 6];
    assert Occ(v, 2) == 3 && Occ(v, 5) == 2 && Occ(v, 6) == 1;
    forall x ensures Occ(v, x) <= 3 {
      if x != 2 && x != 5 && x != 6 {
        assert x !in multiset(v);
      }
    }
    assert FirstIndex(v, 2) == 0;
    assert IsMostCommon(v, 2, 3);
    var r := MostCommon(v);
    MostCommonUnique(v, r.0, r.1, 2, 3);
  }

  /** Votes 3, 4, 3, 4 tie at two each; 3 wins because it was seen first,
      not because of its number. */
  lemma TieGoesToFirstSeen()
    ensures MostCommon([3, 4, 3, 4]) == (3, 2)
    ensures MostCommon([4, 3, 4, 3]) == (4, 2)
  {
    var v, w := [3, 4, 3, 4], [4, 3, 4, 3];
    assert Occ(v, 3) == 2 && Occ(v, 4) == 2;
    assert Occ(w, 3) == 2 && Occ(w, 4) == 2;
    forall x ensures Occ(v, x) <= 2 && Occ(w, x) <= 2 {
      if x != 3 && x != 4 {
        assert x !in multiset(v) && x !in multiset(w);
      }
    }
    assert FirstIndex(v, 3) == 0 && FirstIndex(w, 4) == 0;
    assert IsMostCommon(v, 3, 2) && IsMostCommon(w, 4, 2);
    var r, q := MostCommon(v), MostCommon(w);
    MostCommonUnique(v, r.0, r.1, 3, 2);
    MostCommonUnique(w, q.0, q.1, 4, 2);
  }
}
