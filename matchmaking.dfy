/**
 * Choosing the next pair to show a voter: the eligible users, every pair of
 * them in canonical order that the voter has not judged yet, and, once
 * enough users have photos, only pairs whose ratings are close.
 */
module Matchmaking {
  import opened Strings
  import opened Records

  /** Users with photos needed before close-rating matching starts. */
  const EloMatchingThreshold: nat := 30

  /** The largest rating gap allowed in a pair under close-rating matching. */
  const MaxEloGap: int := 100

  function Abs(x: int): int
  {
    if x < 0 then -x else x
  }

  /** Every identity in `order` has a record. */
  predicate AllRegistered(order: seq<string>, users: map<string, User>)
  {
    forall u :: u in order ==> u in users
  }

  /** `u` may appear in a pair shown to `voter`, whose gender is `g`. */
  predicate IsEligible(users: map<string, User>, u: string, voter: string, g: Gender)
    requires u in users
  {
    HasPhoto(users[u]) && u != voter && users[u].gender == g
  }

  /** The eligible users, in the dictionary's order. */
  function Eligible(order: seq<string>, users: map<string, User>, voter: string, g: Gender): (e: seq<string>)
    requires AllRegistered(order, users)
    ensures forall u :: u in e <==> u in order && IsEligible(users, u, voter, g)
    ensures NoDup(order) ==> NoDup(e)
  {
    if order == [] then []
    else
      assert AllRegistered(order[1..], users);
      var rest := Eligible(order[1..], users, voter, g);
      assert NoDup(order) ==> order[0] !in order[1..];
      (if IsEligible(users, order[0], voter, g) then [order[0]] else []) + rest
  }

  /** How many users have a photo, system-wide. */
  function PhotoCount(order: seq<string>, users: map<string, User>): (n: nat)
    requires AllRegistered(order, users)
    ensures n <= |order|
  {
    if order == [] then 0
    else
      assert AllRegistered(order[1..], users);
      (if HasPhoto(users[order[0]]) then 1 else 0) + PhotoCount(order[1..], users)
  }

  /** The users of `order` that have a photo. */
  ghost function WithPhoto(order: seq<string>, users: map<string, User>): set<string>
    requires AllRegistered(order, users)
  {
    set u | u in order && HasPhoto(users[u])
  }

  /** With no repeated identity, the photo count is the number of users with a photo. */
  lemma {:induction false} PhotoCountCounts(order: seq<string>, users: map<string, User>)
    requires AllRegistered(order, users) && NoDup(order)
    ensures PhotoCount(order, users) == |WithPhoto(order, users)|
  {
    if order == [] {
      assert WithPhoto(order, users) == {};
    } else {
      var rest := order[1..];
      assert AllRegistered(rest, users);
      assert NoDup(rest);
      PhotoCountCounts(rest, users);
      assert order[0] !in rest;
      assert order == [order[0]] + rest;
      if HasPhoto(users[order[0]]) {
        assert WithPhoto(order, users) == WithPhoto(rest, users) + {order[0]};
      } else {
        assert WithPhoto(order, users) == WithPhoto(rest, users);
      }
    }
  }

  /** Eligibility needs a photo, so there are never more eligible users than photos. */
  lemma {:induction false} EligibleWithinPhotoCount(order: seq<string>, users: map<string, User>, voter: string, g: Gender)
    requires AllRegistered(order, users)
    ensures |Eligible(order, users, voter, g)| <= PhotoCount(order, users)
  {
    if order != [] {
      assert AllRegistered(order[1..], users);
      EligibleWithinPhotoCount(order[1..], users, voter, g);
    }
  }

  /** Close-rating matching is on once enough users have photos. */
  predicate UseEloMatching(order: seq<string>, users: map<string, User>): (b: bool)
    requires AllRegistered(order, users)
    ensures b ==> |order| >= EloMatchingThreshold
  {
    PhotoCount(order, users) >= EloMatchingThreshold
  }

  /**
   * A canonical pair survives the filters: the voter has not judged it, and
   * under close-rating matching the two ratings differ by at most 100.
   * (Both identities always have records; the membership test only makes
   * the lookup well defined.)
   */
  predicate Keep(p: Pair, tried: seq<Pair>, users: map<string, User>, useElo: bool)
  {
    && p !in tried
    && (useElo ==> p.0 in users && p.1 in users && Abs(users[p.0].elo - users[p.1].elo) <= MaxEloGap)
  }

  /** What a candidate pair is, independently of how the list is built. */
  predicate IsCandidate(p: Pair, e: seq<string>, tried: seq<Pair>, users: map<string, User>, useElo: bool)
  {
    p.0 in e && p.1 in e && Lt(p.0, p.1) && Keep(p, tried, users, useElo)
  }

  /** The pairs the inner loop adds for row `i`, with `j` running from i+1 up to (excluding) `j`. */
  function Row(e: seq<string>, i: nat, j: nat, tried: seq<Pair>, users: map<string, User>, useElo: bool): seq<Pair>
    requires i < j <= |e|
    decreases j
  {
    if j == i + 1 then []
    else
      var p := SortPair(e[i], e[j - 1]);
      Row(e, i, j - 1, tried, users, useElo) + (if Keep(p, tried, users, useElo) then [p] else [])
  }

  /** The pairs the outer loop has added after rows 0 .. i-1. */
  function Rows(e: seq<string>, i: nat, tried: seq<Pair>, users: map<string, User>, useElo: bool): seq<Pair>
    requires i <= |e|
  {
    if i == 0 then []
    else Rows(e, i - 1, tried, users, useElo) + Row(e, i - 1, |e|, tried, users, useElo)
  }

  /** The candidate list, in the order the nested loops produce it. */
  function Candidates(e: seq<string>, tried: seq<Pair>, users: map<string, User>, useElo: bool): seq<Pair>
  {
    Rows(e, |e|, tried, users, useElo)
  }

  /** The smaller position, in `e`, of a pair's two identities. */
  function Lo(e: seq<string>, p: Pair): nat
    requires p.0 in e && p.1 in e
  {
    var a, b := IndexOf(e, p.0), IndexOf(e, p.1);
    if a < b then a else b
  }

  /** The larger position, in `e`, of a pair's two identities. */
  function Hi(e: seq<string>, p: Pair): nat
    requires p.0 in e && p.1 in e
  {
    var a, b := IndexOf(e, p.0), IndexOf(e, p.1);
    if a < b then b else a
  }

  /** The pair of positions `i < k` is a candidate pair that lies at exactly those positions. */
  lemma PairAt(e: seq<string>, i: nat, k: nat)
    requires NoDup(e) && i < k < |e|
    ensures var p := SortPair(e[i], e[k]);
            p.0 in e && p.1 in e && Lt(p.0, p.1) && Lo(e, p) == i && Hi(e, p) == k
  {
    IndexOfDistinct(e, i);
    IndexOfDistinct(e, k);
  }

  lemma {:induction false} RowSound(e: seq<string>, i: nat, j: nat, tried: seq<Pair>, users: map<string, User>, useElo: bool)
    requires NoDup(e) && i < j <= |e|
    ensures forall p :: p in Row(e, i, j, tried, users, useElo) ==>
              IsCandidate(p, e, tried, users, useElo) && Lo(e, p) == i && i < Hi(e, p) < j
    ensures NoDup(Row(e, i, j, tried, users, useElo))
    decreases j
  {
    if j > i + 1 {
      RowSound(e, i, j - 1, tried, users, useElo);
      PairAt(e, i, j - 1);
    }
  }

  lemma {:induction false} RowComplete(e: seq<string>, i: nat, k: nat, j: nat, tried: seq<Pair>, users: map<string, User>, useElo: bool)
    requires i < k < j <= |e|
    requires Keep(SortPair(e[i], e[k]), tried, users, useElo)
    ensures SortPair(e[i], e[k]) in Row(e, i, j, tried, users, useElo)
    decreases j
  {
    if k < j - 1 {
      RowComplete(e, i, k, j - 1, tried, users, useElo);
    }
  }

  lemma {:induction false} RowsSound(e: seq<string>, i: nat, tried: seq<Pair>, users: map<string, User>, useElo: bool)
    requires NoDup(e) && i <= |e|
    ensures forall p :: p in Rows(e, i, tried, users, useElo) ==>
              IsCandidate(p, e, tried, users, useElo) && Lo(e, p) < i
    ensures NoDup(Rows(e, i, tried, users, useElo))
  {
    if i > 0 {
      RowsSound(e, i - 1, tried, users, useElo);
      RowSound(e, i - 1, |e|, tried, users, useElo);
      NoDupConcat(Rows(e, i - 1, tried, users, useElo), Row(e, i - 1, |e|, tried, users, useElo));
    }
  }

  lemma {:induction false} RowsComplete(e: seq<string>, i: nat, lo: nat, k: nat, tried: seq<Pair>, users: map<string, User>, useElo: bool)
    requires lo < i <= |e| && lo < k < |e|
    requires Keep(SortPair(e[lo], e[k]), tried, users, useElo)
    ensures SortPair(e[lo], e[k]) in Rows(e, i, tried, users, useElo)
  {
    if lo == i - 1 {
      RowComplete(e, lo, k, |e|, tried, users, useElo);
    } else {
      RowsComplete(e, i - 1, lo, k, tried, users, useElo);
    }
  }

  /**
   * The candidate list holds exactly the candidate pairs, each once: sorted
   * pairs of two distinct eligible users, not yet judged by the voter, and
   * within 100 rating points of each other under close-rating matching.
   */
  lemma CandidatesExact(e: seq<string>, tried: seq<Pair>, users: map<string, User>, useElo: bool)
    requires NoDup(e)
    ensures forall p :: p in Candidates(e, tried, users, useElo) <==> IsCandidate(p, e, tried, users, useElo)
    ensures NoDup(Candidates(e, tried, users, useElo))
  {
    RowsSound(e, |e|, tried, users, useElo);
    forall p | IsCandidate(p, e, tried, users, useElo)
      ensures p in Candidates(e, tried, users, useElo)
    {
      var a, b := IndexOf(e, p.0), IndexOf(e, p.1);
      LtIrreflexive(p.0);
      LtAsymmetric(p.0, p.1);
      if a < b {
        assert SortPair(e[a], e[b]) == p;
        RowsComplete(e, |e|, a, b, tried, users, useElo);
      } else {
        assert SortPair(e[b], e[a]) == p;
        RowsComplete(e, |e|, b, a, tried, users, useElo);
      }
    }
  }

  /**
   * A voter who has judged nothing, facing at least two eligible users with
   * no rating filter, is always offered a pair.
   */
  lemma FreshVoterGetsPair(e: seq<string>, users: map<string, User>)
    requires NoDup(e) && |e| >= 2
    ensures Candidates(e, [], users, false) != []
  {
    PairAt(e, 0, 1);
    CandidatesExact(e, [], users, false);
    assert IsCandidate(SortPair(e[0], e[1]), e, [], users, false);
  }

  /**
   * The nested loops of the pair construction: for every i < j over the
   * eligible list, the sorted pair is added unless the voter has judged it
   * or (under close-rating matching) the ratings are more than 100 apart.
   */
  method BuildCandidates(e: seq<string>, tried: seq<Pair>, users: map<string, User>, useElo: bool)
    returns (pairs: seq<Pair>)
    requires NoDup(e) && AllRegistered(e, users)
    ensures pairs == Candidates(e, tried, users, useElo)
    ensures forall p :: p in pairs <==> IsCandidate(p, e, tried, users, useElo)
    ensures NoDup(pairs)
  {
    pairs := [];
    var i := 0;
    while i < |e|
      invariant 0 <= i <= |e|
      invariant pairs == Rows(e, i, tried, users, useElo)
    {
      var j := i + 1;
      while j < |e|
        invariant i + 1 <= j <= |e|
        invariant pairs == Rows(e, i, tried, users, useElo) + Row(e, i, j, tried, users, useElo)
      {
        var pair := SortPair(e[i], e[j]);
        if pair !in tried {
          if useElo {
            var eloDiff := Abs(users[pair.0].elo - users[pair.1].elo);
            if eloDiff <= MaxEloGap {
              pairs := pairs + [pair];
            }
          } else {
            pairs := pairs + [pair];
          }
        }
        j := j + 1;
      }
      i := i + 1;
    }
    CandidatesExact(e, tried, users, useElo);
  }

  /** `random.choice`: the random draw is the input `roll`; every candidate can be drawn. */
  function Pick(cands: seq<Pair>, roll: nat): (p: Pair)
    requires cands != []
    ensures p in cands
    ensures roll < |cands| ==> p == cands[roll]
  {
    cands[roll % |cands|]
  }
}
